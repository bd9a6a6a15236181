/**
 * The layout entry point (src/engine.js, layoutHierarchy).
 *
 * The forest is measured, then placed in one of two ways. The vertical and
 * horizontal layouts collect per-depth offsets and place the roots as one centred
 * row of spans, listing and connecting each root as it is placed. The radial layouts
 * (circular, elliptical, cycle) list every node, keep those with an id, and put them
 * evenly on one ring; the cycle joins ring neighbours, the others draw the tree's
 * parent-child connectors. Label groups follow and, when asked for, one zone per
 * level-1 node.
 *
 * The source writes coordinates onto the caller's node objects, which the listing,
 * the connectors and the zones then read. Here each stage returns values: `Positioned`
 * is the forest with the coordinates it has once placement is done.
 */
module Layout {
  import opened Wrappers
  import opened Trees
  import opened Diagram
  import opened EngineConfig
  import opened Sizing
  import opened Levels
  import opened Placement
  import opened Flatten
  import opened Connectors
  import opened Radial
  import opened Overlays

  /** What layoutHierarchy returns: the listed nodes, the connectors, and the groups (label groups, then zones). */
  datatype Drawing = Drawing(nodes: seq<Box>, connectors: seq<Connector>, groups: seq<Group>)

  /** calculateSubtreeSizes on every root, with the orientation's sibling gap. */
  function Measurements(roots: Forest, o: Orientation, cfg: Config): seq<STree> {
    MeasureF(roots, o.IsVertical(), Gap(cfg, o.IsVertical()))
  }

  /** The vertical and horizontal layouts: the level offsets of every root, then the roots as one centred row. */
  function LinearTrees(m: seq<STree>, vertical: bool, cfg: Config): seq<PTree> {
    PlaceRoots(m, vertical, Gap(cfg, vertical), CollectForest(m, vertical, LevelStep(cfg)))
  }

  /** No position: the measured nodes before the ring places them. */
  function NoPos(k: nat): Option<Point> {
    None
  }

  /** `roots.flatMap(root => flattenNodes(root))` on the measured, not yet placed, forest. */
  function Listing(m: seq<STree>): seq<Box> {
    FlattenF(AnnotateF(m, NoPos, 0), [])
  }

  /** The ring: the configured or default start angle, and the radii for the listed nodes that have an id. */
  function RingOf(m: seq<STree>, o: Orientation, cfg: Config, trig: Trig): Ring
    requires trig.pi > 0.0
  {
    Ring(StartAngle(cfg, trig.pi), RadiusX(o, |WithIds(Listing(m))|, trig.pi), RadiusY(o, |WithIds(Listing(m))|, trig.pi), trig)
  }

  /** Kept node i at ring position i. */
  function OnRing(kept: seq<Box>, ring: Ring): (placed: seq<Box>)
    ensures |placed| == |kept|
  {
    seq(|kept|, i requires 0 <= i < |kept| => kept[i].(at := Some(RingCorner(kept[i], i, |kept|, ring))))
  }

  /** The position the ring gives pre-order node k. */
  function RingAt(m: seq<STree>, ring: Ring): nat -> Option<Point> {
    (k: nat) => RingPos(Listing(m), ring, k)
  }

  /** The forest as the radial connectors and zones read it: every node with the position the ring gave it. */
  function RingTrees(m: seq<STree>, ring: Ring): seq<PTree> {
    AnnotateF(m, RingAt(m, ring), 0)
  }

  /** The forest once placement is done, in the orientation's layout. */
  function Positioned(roots: Forest, o: Orientation, cfg: Config, trig: Trig): seq<PTree>
    requires trig.pi > 0.0
  {
    var m := Measurements(roots, o, cfg);
    if o.IsCircular() then RingTrees(m, RingOf(m, o, cfg, trig)) else LinearTrees(m, o.IsVertical(), cfg)
  }

  /** The listed nodes: the placed pre-order listing, or the ring's nodes. */
  function Nodes(roots: Forest, o: Orientation, cfg: Config, trig: Trig): seq<Box>
    requires trig.pi > 0.0
  {
    var m := Measurements(roots, o, cfg);
    if o.IsCircular() then OnRing(WithIds(Listing(m)), RingOf(m, o, cfg, trig))
    else FlattenF(LinearTrees(m, o.IsVertical(), cfg), [])
  }

  /** The cycle's connectors: node i to node i + 1, the last one back to the first. */
  function CycleList(nodes: seq<Box>, curved: bool, rx: real, ry: real): (cs: seq<Connector>)
    ensures |cs| == |nodes|
  {
    seq(|nodes|, i requires 0 <= i < |nodes| => CycleEdge(nodes[i], nodes[Next(i, |nodes|)], curved, rx, ry))
  }

  /** How the layout routes its tree connectors. */
  function RoutingOf(o: Orientation, cfg: Config, trig: Trig): Routing {
    Routing(o.IsVertical(), o.IsCircular(), cfg.connectorStyle, trig)
  }

  function Connections(roots: Forest, o: Orientation, cfg: Config, trig: Trig): seq<Connector>
    requires trig.pi > 0.0
  {
    if o == Cycle then
      var ring := RingOf(Measurements(roots, o, cfg), o, cfg, trig);
      CycleList(Nodes(roots, o, cfg, trig), cfg.connectorStyle == Curved, ring.rx, ring.ry)
    else GenForest(Positioned(roots, o, cfg, trig), RoutingOf(o, cfg, trig))
  }

  /** One zone per level-1 node, in order. */
  function ZoneList(trees: seq<PTree>, nodes: seq<Box>, overrides: map<string, ZoneOverride>): (zs: seq<Group>)
    ensures |zs| == |Level1(trees)|
  {
    seq(|Level1(trees)|, i requires 0 <= i < |Level1(trees)| => ZoneOf(Level1(trees)[i], i, nodes, overrides))
  }

  /** The label groups, then the zones when they are switched on. */
  function Overlay(trees: seq<PTree>, nodes: seq<Box>, cfg: Config): seq<Group> {
    LabelGroups(nodes) + (if cfg.showZones then ZoneList(trees, nodes, cfg.zoneOverrides) else [])
  }

  /** The drawing layoutHierarchy returns for a forest, an orientation and a configuration. */
  function Draw(roots: Forest, o: Orientation, cfg: Config, trig: Trig): Drawing
    requires trig.pi > 0.0
  {
    Drawing(Nodes(roots, o, cfg, trig), Connections(roots, o, cfg, trig),
            Overlay(Positioned(roots, o, cfg, trig), Nodes(roots, o, cfg, trig), cfg))
  }

  lemma {:induction false} FlattenFSnoc(a: seq<PTree>, t: PTree, path: seq<string>)
    ensures FlattenF(a + [t], path) == FlattenF(a, path) + FlattenTree(t, path)
    decreases a
  {
    if a == [] {
      assert [t][1..] == [];
    } else {
      assert (a + [t])[0] == a[0];
      assert (a + [t])[1..] == a[1..] + [t];
      FlattenFSnoc(a[1..], t, path);
    }
  }

  lemma {:induction false} GenForestSnoc(a: seq<PTree>, t: PTree, r: Routing)
    ensures GenForest(a + [t], r) == GenForest(a, r) + GenTree(t, r)
    decreases a
  {
    if a == [] {
      assert [t][1..] == [];
    } else {
      assert (a + [t])[0] == a[0];
      assert (a + [t])[1..] == a[1..] + [t];
      GenForestSnoc(a[1..], t, r);
    }
  }

  /** `roots.flatMap(root => flattenNodes(root))`. */
  method ListAll(ps: seq<PTree>) returns (nodes: seq<Box>)
    ensures nodes == FlattenF(ps, [])
  {
    nodes := [];
    var i := 0;
    while i < |ps|
      invariant 0 <= i <= |ps|
      invariant nodes == FlattenF(ps[..i], [])
    {
      assert ps[..i + 1] == ps[..i] + [ps[i]];
      FlattenFSnoc(ps[..i], ps[i], []);
      nodes := FlattenNodes(ps[i], [], nodes);
      i := i + 1;
    }
    assert ps[..i] == ps;
  }

  /** `roots.forEach(root => allConnectors = allConnectors.concat(generateConnectors(root, ...)))`. */
  method ConnectAll(ps: seq<PTree>, r: Routing) returns (cs: seq<Connector>)
    ensures cs == GenForest(ps, r)
  {
    cs := [];
    var i := 0;
    while i < |ps|
      invariant 0 <= i <= |ps|
      invariant cs == GenForest(ps[..i], r)
    {
      assert ps[..i + 1] == ps[..i] + [ps[i]];
      GenForestSnoc(ps[..i], ps[i], r);
      cs := GenerateConnectors(ps[i], r, cs);
      i := i + 1;
    }
    assert ps[..i] == ps;
  }

  /** The vertical and horizontal branch: each root is placed, listed and connected in turn. */
  method LinearLayout(m: seq<STree>, vertical: bool, cfg: Config, r: Routing)
    returns (placed: seq<PTree>, nodes: seq<Box>, connectors: seq<Connector>)
    ensures placed == LinearTrees(m, vertical, cfg)
    ensures nodes == FlattenF(placed, [])
    ensures connectors == GenForest(placed, r)
  {
    var gap := Gap(cfg, vertical);
    var levels := CollectAll(m, vertical, LevelStep(cfg));
    var current := RootsStart(m, vertical, gap);
    placed, nodes, connectors := [], [], [];
    var i := 0;
    while i < |m|
      invariant 0 <= i <= |m|
      invariant placed + PlaceKids(m[i..], current, 0, vertical, gap, levels) == PlaceRoots(m, vertical, gap, levels)
      invariant nodes == FlattenF(placed, [])
      invariant connectors == GenForest(placed, r)
    {
      current, placed, nodes, connectors := PlaceRoot(m, vertical, gap, levels, r, i, current, placed, nodes, connectors);
      i := i + 1;
    }
    assert m[i..] == [];
  }

  /** One turn of the linear branch's loop: root i is placed, listed and connected. */
  method PlaceRoot(m: seq<STree>, vertical: bool, gap: real, levels: seq<real>, r: Routing, i: nat,
                   current: real, placed: seq<PTree>, nodes: seq<Box>, connectors: seq<Connector>)
    returns (current': real, placed': seq<PTree>, nodes': seq<Box>, connectors': seq<Connector>)
    requires i < |m|
    requires placed + PlaceKids(m[i..], current, 0, vertical, gap, levels) == PlaceRoots(m, vertical, gap, levels)
    requires nodes == FlattenF(placed, []) && connectors == GenForest(placed, r)
    ensures placed' + PlaceKids(m[i + 1..], current', 0, vertical, gap, levels) == PlaceRoots(m, vertical, gap, levels)
    ensures nodes' == FlattenF(placed', []) && connectors' == GenForest(placed', r)
  {
    var p := AssignCoordinates(m[i], current, 0, vertical, gap, levels);
    FlattenFSnoc(placed, p, []);
    GenForestSnoc(placed, p, r);
    nodes' := FlattenNodes(p, [], nodes);
    connectors' := GenerateConnectors(p, r, connectors);
    placed' := placed + [p];
    current' := current + m[i].val.size + gap;
    assert m[i..][1..] == m[i + 1..];
    assert PlaceKids(m[i..], current, 0, vertical, gap, levels)
        == [p] + PlaceKids(m[i + 1..], current', 0, vertical, gap, levels);
    AppendAssoc(placed, [p], PlaceKids(m[i + 1..], current', 0, vertical, gap, levels));
  }

  /** layoutHierarchy: measure, place, list and connect, then add the label groups and the zones. */
  method LayoutHierarchy(roots: Forest, o: Orientation, cfg: Config, trig: Trig) returns (out: Drawing)
    requires trig.pi > 0.0
    ensures out == Draw(roots, o, cfg, trig)
  {
    var vertical := o.IsVertical();
    var m := MeasureForest(roots, vertical, Gap(cfg, vertical));
    var r := Routing(vertical, o.IsCircular(), cfg.connectorStyle, trig);
    var placed: seq<PTree>;
    var nodes: seq<Box>;
    var connectors: seq<Connector>;
    if o.IsCircular() {
      var listed := ListAll(AnnotateF(m, NoPos, 0));
      var kept := WithIds(listed);
      var rx := RadiusX(o, |kept|, trig.pi);
      var ry := RadiusY(o, |kept|, trig.pi);
      var ring := Ring(StartAngle(cfg, trig.pi), rx, ry, trig);
      nodes := PlaceRing(kept, ring);
      assert nodes == OnRing(kept, ring);
      placed := RingTrees(m, ring);
      if o == Cycle {
        connectors := CycleConnectors(nodes, cfg.connectorStyle == Curved, rx, ry);
        assert connectors == CycleList(nodes, cfg.connectorStyle == Curved, rx, ry);
      } else {
        connectors := ConnectAll(placed, r);
      }
    } else {
      placed, nodes, connectors := LinearLayout(m, vertical, cfg, r);
    }
    var groups := GroupByLabel(nodes);
    if cfg.showZones {
      var zones := Zones(placed, nodes, cfg.zoneOverrides);
      assert zones == ZoneList(placed, nodes, cfg.zoneOverrides);
      groups := groups + zones;
    }
    out := Drawing(nodes, connectors, groups);
  }

  // ----- what the drawing holds -----

  /**
   * The vertical and horizontal layouts list every node of the forest exactly once,
   * in pre-order (parents before children, siblings in order).
   */
  lemma {:induction false} LinearListing(roots: Forest, o: Orientation, cfg: Config, trig: Trig)
    requires trig.pi > 0.0 && !o.IsCircular()
    ensures |Draw(roots, o, cfg, trig).nodes| == |ValsF(roots)|
    ensures forall k :: 0 <= k < |ValsF(roots)| ==> Draw(roots, o, cfg, trig).nodes[k].info == ValsF(roots)[k]
  {
    var m := Measurements(roots, o, cfg);
    var v := o.IsVertical();
    var gap := Gap(cfg, v);
    var levels := CollectForest(m, v, LevelStep(cfg));
    var ps := LinearTrees(m, v, cfg);
    assert ps == PlaceKids(m, RootsStart(m, v, gap), 0, v, gap, levels);
    PlaceKidsVals(m, RootsStart(m, v, gap), 0, v, gap, levels);
    MeasureInfos(roots, v, gap);
    FlattenPreorder(ps, []);
  }

  /** The radial pre-order listing carries the forest's nodes, in pre-order. */
  lemma {:induction false} ListingPreorder(roots: Forest, o: Orientation, cfg: Config)
    ensures |Listing(Measurements(roots, o, cfg))| == |ValsF(roots)|
    ensures forall k :: 0 <= k < |ValsF(roots)| ==> Listing(Measurements(roots, o, cfg))[k].info == ValsF(roots)[k]
  {
    var m := Measurements(roots, o, cfg);
    AnnotateVals(m, NoPos, 0);
    FlattenPreorder(AnnotateF(m, NoPos, 0), []);
    MeasureInfos(roots, o.IsVertical(), Gap(cfg, o.IsVertical()));
  }

  /** Ring placement keeps each node's record and path and gives it a corner. */
  lemma {:induction false} OnRingFacts(kept: seq<Box>, ring: Ring)
    ensures forall i :: 0 <= i < |kept| ==>
      OnRing(kept, ring)[i].info == kept[i].info && OnRing(kept, ring)[i].path == kept[i].path && OnRing(kept, ring)[i].at.Some?
  {
  }

  /** Every ring node is a listed node with an id. */
  lemma {:induction false} RingKeeps(L: seq<Box>, vals: seq<Info>, ring: Ring)
    requires |L| == |vals| && forall k :: 0 <= k < |L| ==> L[k].info == vals[k]
    ensures forall i :: 0 <= i < |OnRing(WithIds(L), ring)| ==>
      OnRing(WithIds(L), ring)[i].info.id != "" && OnRing(WithIds(L), ring)[i].info in vals
  {
    var kept := WithIds(L);
    OnRingFacts(kept, ring);
    WithIdsFrom(L);
    WithIdsSpec(L);
    forall i | 0 <= i < |kept| ensures OnRing(kept, ring)[i].info.id != "" && OnRing(kept, ring)[i].info in vals {
      assert kept[i] in L;
      var k :| 0 <= k < |L| && L[k] == kept[i];
      assert vals[k] == kept[i].info;
    }
  }

  /** Listed node k with an id is ring node Rank(k). */
  lemma {:induction false} RingRank(L: seq<Box>, vals: seq<Info>, ring: Ring)
    requires |L| == |vals| && forall k :: 0 <= k < |L| ==> L[k].info == vals[k]
    ensures forall k :: 0 <= k < |vals| && vals[k].id != "" ==>
      Rank(L, k) < |OnRing(WithIds(L), ring)| && OnRing(WithIds(L), ring)[Rank(L, k)].info == vals[k]
  {
    OnRingFacts(WithIds(L), ring);
    forall k | 0 <= k < |vals| && vals[k].id != ""
      ensures Rank(L, k) < |OnRing(WithIds(L), ring)| && OnRing(WithIds(L), ring)[Rank(L, k)].info == vals[k]
    {
      RankFinds(L, k);
    }
  }

  /** When every listed node has an id, the ring holds them all, in listing order. */
  lemma {:induction false} RingAll(L: seq<Box>, vals: seq<Info>, ring: Ring)
    requires |L| == |vals| && forall k :: 0 <= k < |L| ==> L[k].info == vals[k]
    requires forall k :: 0 <= k < |vals| ==> vals[k].id != ""
    ensures |OnRing(WithIds(L), ring)| == |vals|
    ensures forall k :: 0 <= k < |vals| ==> OnRing(WithIds(L), ring)[k].info == vals[k]
  {
    WithIdsFrom(L);
    assert WithIds(L) == L;
    OnRingFacts(L, ring);
  }

  /**
   * The radial layouts keep exactly the nodes that have an id, in pre-order: every
   * ring node is a node of the forest with an id, and forest node k, when it has an
   * id, sits at ring position Rank(k), the number of nodes with an id before it.
   * When every node has an id the ring holds the whole pre-order listing.
   */
  lemma {:induction false} RingListing(roots: Forest, o: Orientation, cfg: Config, trig: Trig)
    requires trig.pi > 0.0 && o.IsCircular()
    ensures forall i :: 0 <= i < |Draw(roots, o, cfg, trig).nodes| ==>
      Draw(roots, o, cfg, trig).nodes[i].info.id != "" && Draw(roots, o, cfg, trig).nodes[i].info in ValsF(roots)
    ensures forall k :: 0 <= k < |ValsF(roots)| && ValsF(roots)[k].id != "" ==>
      && k < |Listing(Measurements(roots, o, cfg))|
      && Rank(Listing(Measurements(roots, o, cfg)), k) < |Draw(roots, o, cfg, trig).nodes|
      && Draw(roots, o, cfg, trig).nodes[Rank(Listing(Measurements(roots, o, cfg)), k)].info == ValsF(roots)[k]
    ensures (forall k :: 0 <= k < |ValsF(roots)| ==> ValsF(roots)[k].id != "") ==>
      && |Draw(roots, o, cfg, trig).nodes| == |ValsF(roots)|
      && forall k :: 0 <= k < |ValsF(roots)| ==> Draw(roots, o, cfg, trig).nodes[k].info == ValsF(roots)[k]
  {
    var m := Measurements(roots, o, cfg);
    assert Draw(roots, o, cfg, trig).nodes == OnRing(WithIds(Listing(m)), RingOf(m, o, cfg, trig));
    ListingPreorder(roots, o, cfg);
    RingKeeps(Listing(m), ValsF(roots), RingOf(m, o, cfg, trig));
    RingRank(Listing(m), ValsF(roots), RingOf(m, o, cfg, trig));
    if forall k :: 0 <= k < |ValsF(roots)| ==> ValsF(roots)[k].id != "" {
      RingAll(Listing(m), ValsF(roots), RingOf(m, o, cfg, trig));
    }
  }

  /** Keeping the nodes with an id keeps every path ending with its node's id. */
  lemma {:induction false} KeptPaths(L: seq<Box>)
    requires forall k :: 0 <= k < |L| ==> PathEndsWith(L[k], [])
    ensures forall i :: 0 <= i < |WithIds(L)| ==> PathEndsWith(WithIds(L)[i], [])
  {
    WithIdsFrom(L);
    forall i | 0 <= i < |WithIds(L)| ensures PathEndsWith(WithIds(L)[i], []) {
      assert WithIds(L)[i] in L;
    }
  }

  /** Ring nodes have a corner and a path that ends with their own id. */
  lemma {:induction false} RingPlaced(m: seq<STree>, ring: Ring)
    ensures AllPlaced(OnRing(WithIds(Listing(m)), ring))
    ensures forall k :: 0 <= k < |OnRing(WithIds(Listing(m)), ring)| ==> PathEndsWith(OnRing(WithIds(Listing(m)), ring)[k], [])
  {
    var kept := WithIds(Listing(m));
    FlattenPathEnds(AnnotateF(m, NoPos, 0), []);
    KeptPaths(Listing(m));
    OnRingFacts(kept, ring);
    forall i | 0 <= i < |kept| ensures PathEndsWith(OnRing(kept, ring)[i], []) {
      assert PathEndsWith(kept[i], []);
    }
  }

  /** The linear listing's nodes have a corner and a path that ends with their own id. */
  lemma {:induction false} LinearPlaced(m: seq<STree>, vertical: bool, cfg: Config)
    ensures AllPlaced(FlattenF(LinearTrees(m, vertical, cfg), []))
    ensures forall k :: 0 <= k < |FlattenF(LinearTrees(m, vertical, cfg), [])| ==>
      PathEndsWith(FlattenF(LinearTrees(m, vertical, cfg), [])[k], [])
  {
    var gap := Gap(cfg, vertical);
    var levels := CollectForest(m, vertical, LevelStep(cfg));
    var ps := LinearTrees(m, vertical, cfg);
    assert ps == PlaceKids(m, RootsStart(m, vertical, gap), 0, vertical, gap, levels);
    PlaceKidsVals(m, RootsStart(m, vertical, gap), 0, vertical, gap, levels);
    ValsFSize(ps);
    FlattenPreorder(ps, []);
    FlattenPathEnds(ps, []);
  }

  /** Every listed node has a corner and carries its own id at the end of its path, in every orientation. */
  lemma {:induction false} LayoutPlaced(roots: Forest, o: Orientation, cfg: Config, trig: Trig)
    requires trig.pi > 0.0
    ensures AllPlaced(Draw(roots, o, cfg, trig).nodes)
    ensures forall k :: 0 <= k < |Draw(roots, o, cfg, trig).nodes| ==>
      PathEndsWith(Draw(roots, o, cfg, trig).nodes[k], [])
    ensures OwnIdsOnPaths(Draw(roots, o, cfg, trig).nodes)
  {
    var m := Measurements(roots, o, cfg);
    var nodes := Draw(roots, o, cfg, trig).nodes;
    if o.IsCircular() {
      RingPlaced(m, RingOf(m, o, cfg, trig));
    } else {
      LinearPlaced(m, o.IsVertical(), cfg);
    }
    forall k | 0 <= k < |nodes| ensures nodes[k].info.id in nodes[k].path {
      assert PathEndsWith(nodes[k], []);
    }
  }

  /** The placed forest has the shape of the input forest. */
  lemma {:induction false} PositionedShape(roots: Forest, o: Orientation, cfg: Config, trig: Trig)
    requires trig.pi > 0.0
    ensures SameShapeF(Positioned(roots, o, cfg, trig), Measurements(roots, o, cfg))
    ensures Parents(Positioned(roots, o, cfg, trig)) == Parents(roots)
    ensures SizeF(Positioned(roots, o, cfg, trig)) == |ValsF(roots)|
  {
    var m := Measurements(roots, o, cfg);
    var v := o.IsVertical();
    var gap := Gap(cfg, v);
    var ps := Positioned(roots, o, cfg, trig);
    if o.IsCircular() {
      AnnotateVals(m, RingAt(m, RingOf(m, o, cfg, trig)), 0);
    } else {
      var levels := CollectForest(m, v, LevelStep(cfg));
      assert ps == PlaceKids(m, RootsStart(m, v, gap), 0, v, gap, levels);
      PlaceKidsVals(m, RootsStart(m, v, gap), 0, v, gap, levels);
    }
    MeasureFShape(roots, v, gap);
    SameShapeParents(ps, m, 0, None);
    SameShapeParents(m, roots, 0, None);
    SameShapeSize(ps, m);
    SameShapeSize(m, roots);
    ValsFSize(roots);
  }

  /**
   * Outside the cycle, the connectors are the tree's parent-child edges: one per node
   * that is not a root, drawn from the node's parent in the input forest, in
   * pre-order.
   */
  lemma {:induction false} LayoutConnectors(roots: Forest, o: Orientation, cfg: Config, trig: Trig)
    requires trig.pi > 0.0 && o != Cycle
    ensures |Draw(roots, o, cfg, trig).connectors| + |roots| == |ValsF(roots)|
    ensures Draw(roots, o, cfg, trig).connectors
         == EdgesOf(ValsF(Positioned(roots, o, cfg, trig)), Parents(roots), 0, RoutingOf(o, cfg, trig))
  {
    var ps := Positioned(roots, o, cfg, trig);
    PositionedShape(roots, o, cfg, trig);
    ConnectorsArePreorderEdges(ps, RoutingOf(o, cfg, trig));
  }

  /**
   * The cycle draws one connector per ring node, from it to the next one, the last
   * one back to the first.
   */
  lemma {:induction false} LayoutCycle(roots: Forest, o: Orientation, cfg: Config, trig: Trig)
    requires trig.pi > 0.0 && o == Cycle
    ensures |Draw(roots, o, cfg, trig).connectors| == |Draw(roots, o, cfg, trig).nodes|
    ensures forall i :: 0 <= i < |Draw(roots, o, cfg, trig).nodes| ==>
      && Draw(roots, o, cfg, trig).connectors[i].isCycle
      && Draw(roots, o, cfg, trig).connectors[i].from == Draw(roots, o, cfg, trig).nodes[i].info.id
      && Draw(roots, o, cfg, trig).connectors[i].to
         == Draw(roots, o, cfg, trig).nodes[Next(i, |Draw(roots, o, cfg, trig).nodes|)].info.id
    ensures |Draw(roots, o, cfg, trig).nodes| > 0 ==>
      Draw(roots, o, cfg, trig).connectors[|Draw(roots, o, cfg, trig).nodes| - 1].to == Draw(roots, o, cfg, trig).nodes[0].info.id
  {
    var d := Draw(roots, o, cfg, trig);
    var ring := RingOf(Measurements(roots, o, cfg), o, cfg, trig);
    assert d.connectors == CycleList(d.nodes, cfg.connectorStyle == Curved, ring.rx, ring.ry);
    CycleListSpec(d.nodes, cfg.connectorStyle == Curved, ring.rx, ring.ry);
  }

  /** The cycle list links node i to node Next(i), the last one back to the first. */
  lemma {:induction false} CycleListSpec(nodes: seq<Box>, curved: bool, rx: real, ry: real)
    ensures forall i :: 0 <= i < |nodes| ==>
      && CycleList(nodes, curved, rx, ry)[i].isCycle
      && CycleList(nodes, curved, rx, ry)[i].from == nodes[i].info.id
      && CycleList(nodes, curved, rx, ry)[i].to == nodes[Next(i, |nodes|)].info.id
    ensures |nodes| > 0 ==> CycleList(nodes, curved, rx, ry)[|nodes| - 1].to == nodes[0].info.id
  {
  }

  /** Each side of rectangle r is exactly `pad` from a node held by group `name`. */
  predicate TightAround(nodes: seq<Box>, name: string, r: Rect, pad: real)
    requires AllPlaced(nodes)
  {
    && (exists j :: 0 <= j < |nodes| && HeldBy(nodes, |nodes|, name, j) && nodes[j].at.value.x == r.x + pad)
    && (exists j :: 0 <= j < |nodes| && HeldBy(nodes, |nodes|, name, j) && nodes[j].at.value.y == r.y + pad)
    && (exists j :: 0 <= j < |nodes| && HeldBy(nodes, |nodes|, name, j) && nodes[j].at.value.x + nodes[j].w == r.x + r.w - pad)
    && (exists j :: 0 <= j < |nodes| && HeldBy(nodes, |nodes|, name, j) && nodes[j].at.value.y + nodes[j].h == r.y + r.h - pad)
  }

  /**
   * A label group as drawn: named after its caption, not a zone, with a rectangle
   * that frames every node held by the group with 25 of room and is tight around them.
   */
  predicate FramesHolders(nodes: seq<Box>, gr: Group)
    requires AllPlaced(nodes)
  {
    && gr.id == "group-" + gr.caption && !gr.isZone && gr.rect.Some?
    && (forall j :: 0 <= j < |nodes| && HeldBy(nodes, |nodes|, gr.caption, j) ==> Framed(nodes[j], gr.rect.value, GroupPad))
    && TightAround(nodes, gr.caption, gr.rect.value, GroupPad)
  }

  /** A member set that is exactly the holders of `name`: framing and tightness carry over. */
  lemma {:induction false} HoldersFramed(nodes: seq<Box>, members: set<nat>, name: string, r: Rect, pad: real)
    requires AllPlaced(nodes)
    requires forall j :: 0 <= j < |nodes| ==> (j in members <==> HeldBy(nodes, |nodes|, name, j))
    requires forall j :: 0 <= j < |nodes| && j in members ==> Framed(nodes[j], r, pad)
    requires TouchedByMembers(nodes, members, r, pad)
    ensures forall j :: 0 <= j < |nodes| && HeldBy(nodes, |nodes|, name, j) ==> Framed(nodes[j], r, pad)
    ensures TightAround(nodes, name, r, pad)
  {
    var j1 :| 0 <= j1 < |nodes| && j1 in members && nodes[j1].at.value.x == r.x + pad;
    var j2 :| 0 <= j2 < |nodes| && j2 in members && nodes[j2].at.value.y == r.y + pad;
    var j3 :| 0 <= j3 < |nodes| && j3 in members && nodes[j3].at.value.x + nodes[j3].w == r.x + r.w - pad;
    var j4 :| 0 <= j4 < |nodes| && j4 in members && nodes[j4].at.value.y + nodes[j4].h == r.y + r.h - pad;
  }

  lemma {:induction false} LabelFrameAt(nodes: seq<Box>, i: nat)
    requires AllPlaced(nodes) && OwnIdsOnPaths(nodes) && i < |LabelGroups(nodes)|
    ensures FramesHolders(nodes, LabelGroups(nodes)[i])
  {
    LabelGroupsPerKey(nodes);
    LabelGroupFrame(nodes, i);
    var g := Gather(nodes, |nodes|);
    var members := g.table[g.keys[i]].members;
    MembersFramed(nodes, members, GroupPad);
    MembersTouch(nodes, members, GroupPad);
    HoldersFramed(nodes, members, g.keys[i], MemberRect(nodes, members, GroupPad), GroupPad);
  }

  /**
   * The drawing's groups are its label groups followed, when zones are on, by one
   * zone per level-1 node; every label group frames exactly the nodes it holds.
   */
  lemma {:induction false} LayoutLabelGroups(roots: Forest, o: Orientation, cfg: Config, trig: Trig)
    requires trig.pi > 0.0
    ensures AllPlaced(Draw(roots, o, cfg, trig).nodes)
    ensures |Draw(roots, o, cfg, trig).groups|
         == |LabelGroups(Draw(roots, o, cfg, trig).nodes)| + (if cfg.showZones then |Level1(Positioned(roots, o, cfg, trig))| else 0)
    ensures forall i :: 0 <= i < |LabelGroups(Draw(roots, o, cfg, trig).nodes)| ==>
      FramesHolders(Draw(roots, o, cfg, trig).nodes, Draw(roots, o, cfg, trig).groups[i])
  {
    var d := Draw(roots, o, cfg, trig);
    LayoutPlaced(roots, o, cfg, trig);
    forall i | 0 <= i < |LabelGroups(d.nodes)| ensures FramesHolders(d.nodes, d.groups[i]) {
      LabelFrameAt(d.nodes, i);
    }
  }

  /** The pre-order index of the root of kids[j] in the listing of kids. */
  lemma {:induction false} KidIndex<T>(kids: seq<Tree<T>>, j: nat) returns (k: nat)
    requires j < |kids|
    ensures k < |ValsF(kids)| && ValsF(kids)[k] == kids[j].val
    decreases kids
  {
    assert ValsF(kids) == Vals(kids[0]) + ValsF(kids[1..]);
    if j == 0 {
      k := 0;
    } else {
      var rest := KidIndex(kids[1..], j - 1);
      k := |Vals(kids[0])| + rest;
    }
  }

  /** The pre-order index of level-1 node i. */
  lemma {:induction false} Level1Index(trees: seq<PTree>, i: nat) returns (k: nat)
    requires i < |Level1(trees)|
    ensures k < |ValsF(trees)| && ValsF(trees)[k] == Level1(trees)[i]
    decreases trees
  {
    var t := trees[0];
    assert Level1(trees) == KidVals(t.kids) + Level1(trees[1..]);
    assert ValsF(trees) == Vals(t) + ValsF(trees[1..]);
    assert Vals(t) == [t.val] + ValsF(t.kids);
    if i < |t.kids| {
      var inner := KidIndex(t.kids, i);
      k := 1 + inner;
    } else {
      var rest := Level1Index(trees[1..], i - |t.kids|);
      k := |Vals(t)| + rest;
    }
  }

  /** In the vertical and horizontal layouts every node of the placed forest has a corner. */
  lemma {:induction false} LinearLevel1Placed(m: seq<STree>, vertical: bool, cfg: Config, i: nat)
    requires i < |Level1(LinearTrees(m, vertical, cfg))|
    ensures Level1(LinearTrees(m, vertical, cfg))[i].at.Some?
  {
    var gap := Gap(cfg, vertical);
    var levels := CollectForest(m, vertical, LevelStep(cfg));
    var ps := LinearTrees(m, vertical, cfg);
    assert ps == PlaceKids(m, RootsStart(m, vertical, gap), 0, vertical, gap, levels);
    PlaceKidsVals(m, RootsStart(m, vertical, gap), 0, vertical, gap, levels);
    var k := Level1Index(ps, i);
  }

  /** In the radial layouts a node of the placed forest has a corner exactly when it has an id. */
  lemma {:induction false} RingLevel1Placed(m: seq<STree>, ring: Ring, i: nat)
    requires i < |Level1(RingTrees(m, ring))|
    ensures Level1(RingTrees(m, ring))[i].at.Some? <==> Level1(RingTrees(m, ring))[i].info.id != ""
  {
    var ps := RingTrees(m, ring);
    var k := Level1Index(ps, i);
    AnnotateVals(m, RingAt(m, ring), 0);
    AnnotateVals(m, NoPos, 0);
    FlattenPreorder(AnnotateF(m, NoPos, 0), []);
    assert ValsF(ps)[k].at == RingPos(Listing(m), ring, k);
  }

  /**
   * A zone as drawn for level-1 node l1: marked as a zone, named "zone-<id>", aimed
   * at l1, with a rectangle that frames l1 and every listed node whose path holds
   * l1's id, with 40 of room.
   */
  predicate FramesSubtree(nodes: seq<Box>, l1: Placed, z: Group)
    requires AllPlaced(nodes) && l1.at.Some?
  {
    && z.isZone && z.id == "zone-" + l1.info.id && z.target == l1.info.id && z.rect.Some?
    && Framed(AsBox(l1), z.rect.value, ZonePad)
    && forall j :: 0 <= j < |nodes| && l1.info.id in nodes[j].path ==> Framed(nodes[j], z.rect.value, ZonePad)
  }

  lemma {:induction false} ZoneAt(trees: seq<PTree>, nodes: seq<Box>, overrides: map<string, ZoneOverride>, i: nat)
    requires AllPlaced(nodes) && i < |Level1(trees)| && Level1(trees)[i].at.Some?
    ensures FramesSubtree(nodes, Level1(trees)[i], ZoneList(trees, nodes, overrides)[i])
  {
    ZoneFrame(Level1(trees)[i], nodes);
  }

  /**
   * The overlay groups of a drawing end with one zone per level-1 node, right after
   * the label groups, and the zone of each placed level-1 node frames its subtree.
   */
  predicate ZonesFrameSubtrees(nodes: seq<Box>, groups: seq<Group>, trees: seq<PTree>)
    requires AllPlaced(nodes)
  {
    && |groups| == |LabelGroups(nodes)| + |Level1(trees)|
    && forall i :: 0 <= i < |Level1(trees)| && Level1(trees)[i].at.Some? ==>
         FramesSubtree(nodes, Level1(trees)[i], groups[|LabelGroups(nodes)| + i])
  }

  /**
   * With zones on, zone i of the drawing belongs to level-1 node i. In the vertical
   * and horizontal layouts every level-1 node is placed, in the radial ones those
   * with an id; the zone of a placed level-1 node frames it and its whole subtree.
   */
  lemma {:induction false} LayoutZones(roots: Forest, o: Orientation, cfg: Config, trig: Trig)
    requires trig.pi > 0.0 && cfg.showZones
    ensures AllPlaced(Draw(roots, o, cfg, trig).nodes)
    ensures forall i :: 0 <= i < |Level1(Positioned(roots, o, cfg, trig))| ==>
      (Level1(Positioned(roots, o, cfg, trig))[i].at.Some? <==>
        (!o.IsCircular() || Level1(Positioned(roots, o, cfg, trig))[i].info.id != ""))
    ensures ZonesFrameSubtrees(Draw(roots, o, cfg, trig).nodes, Draw(roots, o, cfg, trig).groups, Positioned(roots, o, cfg, trig))
  {
    LayoutPlaced(roots, o, cfg, trig);
    Level1Placed(roots, o, cfg, trig);
    ZonesFrame(roots, o, cfg, trig);
  }

  /** Which level-1 nodes the layouts place: all in the linear ones, those with an id in the radial ones. */
  lemma {:induction false} Level1Placed(roots: Forest, o: Orientation, cfg: Config, trig: Trig)
    requires trig.pi > 0.0
    ensures forall i :: 0 <= i < |Level1(Positioned(roots, o, cfg, trig))| ==>
      (Level1(Positioned(roots, o, cfg, trig))[i].at.Some? <==>
        (!o.IsCircular() || Level1(Positioned(roots, o, cfg, trig))[i].info.id != ""))
  {
    var m := Measurements(roots, o, cfg);
    var ps := Positioned(roots, o, cfg, trig);
    forall i | 0 <= i < |Level1(ps)|
      ensures Level1(ps)[i].at.Some? <==> !o.IsCircular() || Level1(ps)[i].info.id != ""
    {
      if o.IsCircular() {
        RingLevel1Placed(m, RingOf(m, o, cfg, trig), i);
      } else {
        LinearLevel1Placed(m, o.IsVertical(), cfg, i);
      }
    }
  }

  /** With zones on, the zones follow the label groups, one per level-1 node, each framing its subtree. */
  lemma {:induction false} ZonesFrame(roots: Forest, o: Orientation, cfg: Config, trig: Trig)
    requires trig.pi > 0.0 && cfg.showZones && AllPlaced(Draw(roots, o, cfg, trig).nodes)
    ensures ZonesFrameSubtrees(Draw(roots, o, cfg, trig).nodes, Draw(roots, o, cfg, trig).groups, Positioned(roots, o, cfg, trig))
  {
    var d := Draw(roots, o, cfg, trig);
    var ps := Positioned(roots, o, cfg, trig);
    assert d.groups == Overlay(ps, d.nodes, cfg);
    OverlayZones(ps, d.nodes, cfg);
  }

  lemma {:induction false} OverlayZones(trees: seq<PTree>, nodes: seq<Box>, cfg: Config)
    requires cfg.showZones && AllPlaced(nodes)
    ensures ZonesFrameSubtrees(nodes, Overlay(trees, nodes, cfg), trees)
  {
    var labels := LabelGroups(nodes);
    assert Overlay(trees, nodes, cfg) == labels + ZoneList(trees, nodes, cfg.zoneOverrides);
    ZonesFollow(nodes, labels, trees, cfg.zoneOverrides);
  }

  /** Zones placed after any list of groups keep their framing at their shifted positions. */
  lemma {:induction false} ZonesFollow(nodes: seq<Box>, labels: seq<Group>, trees: seq<PTree>, overrides: map<string, ZoneOverride>)
    requires AllPlaced(nodes)
    ensures forall i :: 0 <= i < |Level1(trees)| && Level1(trees)[i].at.Some? ==>
      FramesSubtree(nodes, Level1(trees)[i], (labels + ZoneList(trees, nodes, overrides))[|labels| + i])
  {
    var zones := ZoneList(trees, nodes, overrides);
    forall i | 0 <= i < |Level1(trees)| && Level1(trees)[i].at.Some?
      ensures FramesSubtree(nodes, Level1(trees)[i], (labels + zones)[|labels| + i])
    {
      assert (labels + zones)[|labels| + i] == zones[i];
      ZoneAt(trees, nodes, overrides, i);
    }
  }
}
