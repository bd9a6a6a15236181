/**
 * Group and zone rectangles drawn behind the laid-out nodes (src/engine.js, the tail
 * of layoutHierarchy).
 *
 * Label groups: every listed node whose trimmed `groupLabel` is not empty labels the
 * group of that name; the group holds the labelling node and every listed node whose
 * path contains the labelling node's id. Groups come out in the key order of the
 * object they are collected in, take the colour of their first labelling node, and
 * are drawn as the members' bounding box padded by 25.
 *
 * Zones (only when `showZones` is set): one per child of a root, holding that child
 * and every listed node whose path contains its id, padded by 40, coloured from a
 * six-colour palette by position unless the caller overrides caption or colour.
 *
 * A member without a position gives a group without a rectangle. The radial layouts
 * leave id-less nodes unplaced; the source then reads whatever x and y the node
 * already carries.
 */
module Overlays {
  import opened Wrappers
  import opened Text
  import opened Trees
  import opened EngineConfig
  import opened Placement
  import opened Flatten
  import opened ObjectKeys

  const GroupPad: real := 25.0
  const ZonePad: real := 40.0
  const DefaultGroupColor: string := "#CBD5E1"
  const Palette: seq<string> := ["#E0F2FE", "#F0FDF4", "#FFF7ED", "#F3E8FF", "#FCE7F3", "#ECFEFF"]

  /** The smallest axis-aligned box around a set of placed nodes. */
  datatype Extent = Extent(minX: real, minY: real, maxX: real, maxY: real)

  datatype Rect = Rect(x: real, y: real, w: real, h: real)

  /** A label group (`isZone` false, no target) or a zone (`isZone` true, target = the level-1 node's id). */
  datatype Group = Group(id: string, rect: Option<Rect>, caption: string, color: string, isZone: bool, target: string)

  /** JavaScript's `s || d` on a string. */
  function OrElse(s: string, d: string): string {
    if s != "" then s else d
  }

  predicate AllPlaced(ms: seq<Box>) {
    forall k :: 0 <= k < |ms| ==> ms[k].at.Some?
  }

  /** `Math.min`/`Math.max` over the members' corners and far corners; absent when a member is unplaced. */
  function ExtentOf(ms: seq<Box>): (e: Option<Extent>)
    requires ms != []
    ensures e.Some? <==> AllPlaced(ms)
    decreases |ms|
  {
    var b := ms[0];
    if b.at.None? then None
    else if |ms| == 1 then Some(Extent(b.at.value.x, b.at.value.y, b.at.value.x + b.w, b.at.value.y + b.h))
    else match ExtentOf(ms[1..])
      case None => None
      case Some(r) => Some(Joined(b, r))
  }

  /** The box of a placed node lies within e. */
  predicate Inside(b: Box, e: Extent)
    requires b.at.Some?
  {
    e.minX <= b.at.value.x && e.minY <= b.at.value.y && b.at.value.x + b.w <= e.maxX && b.at.value.y + b.h <= e.maxY
  }

  /** Each side of e is reached by some member. */
  predicate Tight(ms: seq<Box>, e: Extent)
    requires AllPlaced(ms)
  {
    && (exists k :: 0 <= k < |ms| && ms[k].at.value.x == e.minX)
    && (exists k :: 0 <= k < |ms| && ms[k].at.value.y == e.minY)
    && (exists k :: 0 <= k < |ms| && ms[k].at.value.x + ms[k].w == e.maxX)
    && (exists k :: 0 <= k < |ms| && ms[k].at.value.y + ms[k].h == e.maxY)
  }

  /** The extent of placed members is their bounding box: it holds every member and each side touches one. */
  lemma {:induction false} ExtentBounds(ms: seq<Box>)
    requires ms != [] && AllPlaced(ms)
    ensures forall k :: 0 <= k < |ms| ==> Inside(ms[k], ExtentOf(ms).value)
    ensures Tight(ms, ExtentOf(ms).value)
    decreases |ms|
  {
    var e := ExtentOf(ms).value;
    if |ms| > 1 {
      var rest := ms[1..];
      ExtentBounds(rest);
      var r := ExtentOf(rest).value;
      JoinedInside(ms, r);
      JoinedTight(ms, r);
    }
  }

  /** The extent of placed box b together with extent r. */
  function Joined(b: Box, r: Extent): Extent
    requires b.at.Some?
  {
    var x, y := b.at.value.x, b.at.value.y;
    Extent(Min(x, r.minX), Min(y, r.minY), Max(x + b.w, r.maxX), Max(y + b.h, r.maxY))
  }

  /** If r holds all boxes but the first, joining the first box to r holds them all. */
  lemma {:induction false} JoinedInside(ms: seq<Box>, r: Extent)
    requires |ms| > 1 && AllPlaced(ms)
    requires forall k :: 0 <= k < |ms[1..]| ==> Inside(ms[1..][k], r)
    ensures forall k :: 0 <= k < |ms| ==> Inside(ms[k], Joined(ms[0], r))
  {
    var rest := ms[1..];
    forall k | 1 <= k < |ms| ensures Inside(ms[k], Joined(ms[0], r)) {
      assert ms[k] == rest[k - 1];
    }
  }

  /** If every side of r touches one of the later boxes, every side of the join touches a box. */
  lemma {:induction false} JoinedTight(ms: seq<Box>, r: Extent)
    requires |ms| > 1 && AllPlaced(ms) && AllPlaced(ms[1..])
    requires Tight(ms[1..], r)
    ensures Tight(ms, Joined(ms[0], r))
  {
    var rest := ms[1..];
    var b := ms[0].at.value;
    if b.x > r.minX {
      var k :| 0 <= k < |rest| && rest[k].at.value.x == r.minX;
      assert ms[k + 1] == rest[k];
    }
    if b.y > r.minY {
      var k :| 0 <= k < |rest| && rest[k].at.value.y == r.minY;
      assert ms[k + 1] == rest[k];
    }
    if b.x + ms[0].w < r.maxX {
      var k :| 0 <= k < |rest| && rest[k].at.value.x + rest[k].w == r.maxX;
      assert ms[k + 1] == rest[k];
    }
    if b.y + ms[0].h < r.maxY {
      var k :| 0 <= k < |rest| && rest[k].at.value.y + rest[k].h == r.maxY;
      assert ms[k + 1] == rest[k];
    }
  }

  /** The extent widened by `pad` on every side, as x, y, w, h. */
  function Padded(e: Option<Extent>, pad: real): Option<Rect> {
    match e
    case None => None
    case Some(x) => Some(Rect(x.minX - pad, x.minY - pad, (x.maxX + pad) - (x.minX - pad), (x.maxY + pad) - (x.minY - pad)))
  }

  /** Placed box b lies inside r with at least `pad` of room on every side. */
  predicate Framed(b: Box, r: Rect, pad: real)
    requires b.at.Some?
  {
    && r.x + pad <= b.at.value.x && b.at.value.x + b.w <= r.x + r.w - pad
    && r.y + pad <= b.at.value.y && b.at.value.y + b.h <= r.y + r.h - pad
  }

  /** Every box of ms is framed by r with `pad` of room. */
  predicate FramesAll(ms: seq<Box>, r: Rect, pad: real)
    requires AllPlaced(ms)
  {
    forall k :: 0 <= k < |ms| ==> Framed(ms[k], r, pad)
  }

  /** Each side of r lies exactly `pad` from some box of ms. */
  predicate TouchedBy(ms: seq<Box>, r: Rect, pad: real)
    requires AllPlaced(ms)
  {
    && (exists k :: 0 <= k < |ms| && ms[k].at.value.x == r.x + pad)
    && (exists k :: 0 <= k < |ms| && ms[k].at.value.y == r.y + pad)
    && (exists k :: 0 <= k < |ms| && ms[k].at.value.x + ms[k].w == r.x + r.w - pad)
    && (exists k :: 0 <= k < |ms| && ms[k].at.value.y + ms[k].h == r.y + r.h - pad)
  }

  /** The padded rectangle keeps `pad` of room around every member, and exactly `pad` on each side for some member. */
  lemma {:induction false} PaddedFrame(ms: seq<Box>, pad: real)
    requires ms != [] && AllPlaced(ms)
    ensures Padded(ExtentOf(ms), pad).Some?
    ensures FramesAll(ms, Padded(ExtentOf(ms), pad).value, pad)
    ensures TouchedBy(ms, Padded(ExtentOf(ms), pad).value, pad)
  {
    ExtentBounds(ms);
    var e := ExtentOf(ms).value;
    forall k | 0 <= k < |ms| ensures Inside(ms[k], e) {
    }
  }

  // ----- label groups -----

  /** `n.groupLabel && n.groupLabel.trim() !== ""`: the label a node gives, "" for none. */
  function LabelOf(b: Box): string {
    Trim(b.info.groupLabel)
  }

  /** Node b labels the group `name`. */
  predicate Labels(b: Box, name: string) {
    name != "" && LabelOf(b) == name
  }

  /** The listed nodes among the first j whose path contains `id`. */
  function HoldersBelow(nodes: seq<Box>, id: string, j: nat): set<nat> {
    set k | 0 <= k < j && k < |nodes| && id in nodes[k].path
  }

  function Holders(nodes: seq<Box>, id: string): set<nat> {
    HoldersBelow(nodes, id, |nodes|)
  }

  /** One entry of the groups object: its members (listing indices) and colour. */
  datatype Bucket = Bucket(members: set<nat>, color: string)

  /** The groups object: its entries and its keys in `Object.keys` order. */
  datatype Buckets = Buckets(keys: seq<string>, table: map<string, Bucket>)

  /**
   * The groups object after the first n listed nodes have been visited: a labelling
   * node opens its label's entry (with its colour, default #CBD5E1) if there is none
   * yet, then adds every listed node whose path contains its id.
   */
  function Gather(nodes: seq<Box>, n: nat): Buckets
    requires n <= |nodes|
    decreases n
  {
    if n == 0 then Buckets([], map[])
    else
      var b := nodes[n - 1];
      Enter(Gather(nodes, n - 1), LabelOf(b), b.info.groupColor, Holders(nodes, b.info.id))
  }

  /** A node giving label `name` (none when "") and colour `color` adds `holders` to that label's entry. */
  function Enter(g: Buckets, name: string, color: string, holders: set<nat>): Buckets {
    if name == "" then g
    else
      var isNew := name !in g.table;
      var bucket := if isNew then Bucket({}, OrElse(color, DefaultGroupColor)) else g.table[name];
      var keys := if isNew then InsertKey(g.keys, name) else g.keys;
      Buckets(keys, g.table[name := bucket.(members := bucket.members + holders)])
  }

  /** The keys are free of repeats, in `Object.keys` order, and exactly the labels that have an entry. */
  ghost predicate WellKeyed(g: Buckets) {
    NoDup(g.keys) && Ordered(g.keys) && forall x :: x in g.keys <==> x in g.table
  }

  /** One visit keeps the object well keyed and adds exactly the given label, at the end of the non-index keys when new. */
  lemma {:induction false} EnterDomain(g: Buckets, name: string, color: string, holders: set<nat>)
    requires WellKeyed(g)
    ensures WellKeyed(Enter(g, name, color, holders))
    ensures forall x :: x in Enter(g, name, color, holders).table <==> x in g.table || (name != "" && x == name)
    ensures Named(Enter(g, name, color, holders).keys)
      == Named(g.keys) + (if name != "" && name !in g.table && !IsIndex(name) then [name] else [])
  {
    if name != "" {
      InsertKeyProps(g.keys, name);
    }
  }

  /** One visit adds `holders` to the label's members and leaves the colour of an existing entry alone. */
  lemma {:induction false} EnterEntries(g: Buckets, name: string, color: string, holders: set<nat>)
    requires name != ""
    ensures name in Enter(g, name, color, holders).table
    ensures forall x :: x in g.table && x != name ==>
      (x in Enter(g, name, color, holders).table && Enter(g, name, color, holders).table[x] == g.table[x])
    ensures name in g.table ==>
      Enter(g, name, color, holders).table[name] == Bucket(g.table[name].members + holders, g.table[name].color)
    ensures name !in g.table ==>
      Enter(g, name, color, holders).table[name] == Bucket(holders, OrElse(color, DefaultGroupColor))
  {
  }

  /** The members of a bucket, in listing order (the source's Set order does not matter to a bounding box). */
  function Pick(nodes: seq<Box>, members: set<nat>, j: nat): (ms: seq<Box>)
    decreases |nodes| - j
  {
    if j >= |nodes| then [] else (if j in members then [nodes[j]] else []) + Pick(nodes, members, j + 1)
  }

  /** The group of one label: id "group-<label>", the padded bounding box of its members, the bucket's colour. */
  function LabelGroup(name: string, color: string, ms: seq<Box>): Group
    requires ms != []
  {
    Group("group-" + name, Padded(ExtentOf(ms), GroupPad), name, color, false, "")
  }

  /** The group of one key, or none when its bucket has no members. */
  function EmitOne(nodes: seq<Box>, table: map<string, Bucket>, name: string): seq<Group> {
    var ms := if name in table then Pick(nodes, table[name].members, 0) else [];
    if ms != [] then [LabelGroup(name, table[name].color, ms)] else []
  }

  /** The groups of the given keys, in key order. */
  function EmitGroups(nodes: seq<Box>, table: map<string, Bucket>, keys: seq<string>): seq<Group> {
    if keys == [] then [] else EmitOne(nodes, table, keys[0]) + EmitGroups(nodes, table, keys[1..])
  }

  /** The label groups of a listing. */
  function LabelGroups(nodes: seq<Box>): seq<Group> {
    var g := Gather(nodes, |nodes|);
    EmitGroups(nodes, g.table, g.keys)
  }

  /** The set of listed nodes whose path contains `id`, collected by a scan of the listing. */
  method HoldersOf(nodes: seq<Box>, id: string) returns (found: set<nat>)
    ensures found == Holders(nodes, id)
  {
    found := {};
    var j := 0;
    while j < |nodes|
      invariant 0 <= j <= |nodes|
      invariant found == HoldersBelow(nodes, id, j)
    {
      if id in nodes[j].path {
        found := found + {j};
      }
      assert HoldersBelow(nodes, id, j + 1) == HoldersBelow(nodes, id, j) + (if id in nodes[j].path then {j} else {});
      j := j + 1;
    }
  }

  /** A bucket's members in listing order (`Array.from` of the set). */
  method MembersOf(nodes: seq<Box>, members: set<nat>) returns (ms: seq<Box>)
    ensures ms == Pick(nodes, members, 0)
  {
    ms := [];
    var j := 0;
    while j < |nodes|
      invariant 0 <= j <= |nodes|
      invariant ms + Pick(nodes, members, j) == Pick(nodes, members, 0)
    {
      var later := Pick(nodes, members, j + 1);
      assert Pick(nodes, members, j) == (if j in members then [nodes[j]] else []) + later;
      if j in members {
        AppendAssoc(ms, [nodes[j]], later);
        ms := ms + [nodes[j]];
      } else {
        assert [] + later == later;
      }
      j := j + 1;
    }
  }

  /** One step of the first pass: listed node i, if it labels a group, opens its entry and adds its holders. */
  method VisitLabeller(nodes: seq<Box>, i: nat, g: Buckets) returns (next: Buckets)
    requires i < |nodes| && g == Gather(nodes, i)
    ensures next == Gather(nodes, i + 1)
  {
    var n := nodes[i];
    var name := Trim(n.info.groupLabel);
    next := g;
    if name != "" {
      var table := g.table;
      var keys := g.keys;
      if name !in table {
        table := table[name := Bucket({}, OrElse(n.info.groupColor, DefaultGroupColor))];
        keys := InsertKey(keys, name);
      }
      var found := HoldersOf(nodes, n.info.id);
      next := Buckets(keys, table[name := table[name].(members := table[name].members + found)]);
    }
  }

  /** The first pass: every listed node in turn. */
  method GatherAll(nodes: seq<Box>) returns (g: Buckets)
    ensures g == Gather(nodes, |nodes|)
  {
    g := Buckets([], map[]);
    var i := 0;
    while i < |nodes|
      invariant 0 <= i <= |nodes|
      invariant g == Gather(nodes, i)
    {
      g := VisitLabeller(nodes, i, g);
      i := i + 1;
    }
  }

  /** One key of the second pass: `if (nodesInGroup.length === 0) return;`, else its group. */
  method EmitKey(nodes: seq<Box>, table: map<string, Bucket>, name: string) returns (gs: seq<Group>)
    ensures gs == EmitOne(nodes, table, name)
  {
    var ms: seq<Box> := [];
    if name in table {
      ms := MembersOf(nodes, table[name].members);
    }
    gs := [];
    if ms != [] {
      gs := [LabelGroup(name, table[name].color, ms)];
    }
  }

  /** The second pass: the groups of the keys in order. */
  method EmitAll(nodes: seq<Box>, table: map<string, Bucket>, keys: seq<string>) returns (groups: seq<Group>)
    ensures groups == EmitGroups(nodes, table, keys)
  {
    groups := [];
    var k := 0;
    while k < |keys|
      invariant 0 <= k <= |keys|
      invariant groups + EmitGroups(nodes, table, keys[k..]) == EmitGroups(nodes, table, keys)
    {
      var gs := EmitKey(nodes, table, keys[k]);
      EmitGroupsStep(nodes, table, keys, k, groups, gs);
      groups := groups + gs;
      k := k + 1;
    }
    assert keys[k..] == [];
  }

  /** One key of the second pass keeps the loop's invariant. */
  lemma {:induction false} EmitGroupsStep(nodes: seq<Box>, table: map<string, Bucket>, keys: seq<string>, k: nat,
                                         groups: seq<Group>, gs: seq<Group>)
    requires k < |keys| && gs == EmitOne(nodes, table, keys[k])
    requires groups + EmitGroups(nodes, table, keys[k..]) == EmitGroups(nodes, table, keys)
    ensures (groups + gs) + EmitGroups(nodes, table, keys[k + 1..]) == EmitGroups(nodes, table, keys)
  {
    assert keys[k..][0] == keys[k];
    assert keys[k..][1..] == keys[k + 1..];
    var rest := EmitGroups(nodes, table, keys[k + 1..]);
    assert EmitGroups(nodes, table, keys[k..]) == gs + rest;
    assert groups + (gs + rest) == (groups + gs) + rest;
  }

  /** The grouping as the source does it: fill the groups object node by node, then emit one group per key. */
  method GroupByLabel(nodes: seq<Box>) returns (groups: seq<Group>)
    ensures groups == LabelGroups(nodes)
  {
    var g := GatherAll(nodes);
    groups := EmitAll(nodes, g.table, g.keys);
  }

  /** Some node among the first n labels group `name`. */
  predicate Labelled(nodes: seq<Box>, n: nat, name: string)
    requires n <= |nodes|
  {
    exists i :: 0 <= i < n && Labels(nodes[i], name)
  }

  /** Some node among the first n labels group `name` and has its id on listed node j's path. */
  predicate HeldBy(nodes: seq<Box>, n: nat, name: string, j: nat)
    requires n <= |nodes| && j < |nodes|
  {
    exists i :: 0 <= i < n && Labels(nodes[i], name) && nodes[i].info.id in nodes[j].path
  }

  /** No node before i labels group `name`. */
  predicate FirstToLabel(nodes: seq<Box>, i: nat, name: string)
    requires i <= |nodes|
  {
    forall k :: 0 <= k < i ==> !Labels(nodes[k], name)
  }

  lemma {:induction false} LabelledStep(nodes: seq<Box>, n: nat, name: string)
    requires 0 < n <= |nodes|
    ensures Labelled(nodes, n, name) <==> Labelled(nodes, n - 1, name) || Labels(nodes[n - 1], name)
    ensures !Labelled(nodes, n - 1, name) <==> FirstToLabel(nodes, n - 1, name)
  {
    if Labelled(nodes, n, name) {
      var i :| 0 <= i < n && Labels(nodes[i], name);
      if i < n - 1 {
        assert Labelled(nodes, n - 1, name);
      }
    }
    if Labels(nodes[n - 1], name) {
      assert 0 <= n - 1 < n && Labels(nodes[n - 1], name);
    }
  }

  lemma {:induction false} HeldByStep(nodes: seq<Box>, n: nat, name: string, j: nat)
    requires 0 < n <= |nodes| && j < |nodes|
    ensures HeldBy(nodes, n, name, j) <==>
      HeldBy(nodes, n - 1, name, j) || (Labels(nodes[n - 1], name) && nodes[n - 1].info.id in nodes[j].path)
    ensures HeldBy(nodes, n - 1, name, j) ==> Labelled(nodes, n - 1, name)
  {
    if HeldBy(nodes, n, name, j) {
      var i :| 0 <= i < n && Labels(nodes[i], name) && nodes[i].info.id in nodes[j].path;
      if i < n - 1 {
        assert HeldBy(nodes, n - 1, name, j);
      }
    }
    if HeldBy(nodes, n - 1, name, j) {
      var i :| 0 <= i < n - 1 && Labels(nodes[i], name) && nodes[i].info.id in nodes[j].path;
      assert Labelled(nodes, n - 1, name);
    }
    if Labels(nodes[n - 1], name) && nodes[n - 1].info.id in nodes[j].path {
      assert 0 <= n - 1 < n && Labels(nodes[n - 1], name) && nodes[n - 1].info.id in nodes[j].path;
    }
  }

  /** The labels of the first n nodes, each once, in the order of their first labelling node. */
  function FirstLabels(nodes: seq<Box>, n: nat): seq<string>
    requires n <= |nodes|
  {
    if n == 0 then []
    else
      var name := LabelOf(nodes[n - 1]);
      FirstLabels(nodes, n - 1) + (if name != "" && FirstToLabel(nodes, n - 1, name) then [name] else [])
  }

  lemma {:induction false} NamedSingle(x: string)
    ensures Named([x]) == if IsIndex(x) then [] else [x]
  {
    assert [x][1..] == [];
  }

  /** The groups object is well keyed and has an entry exactly for each label some node gives. */
  /** One name at a time: it has an entry after n nodes exactly when one of them labels it. */
  lemma {:induction false} GatherHas(nodes: seq<Box>, n: nat, name: string)
    requires n <= |nodes|
    ensures name in Gather(nodes, n).table <==> Labelled(nodes, n, name)
  {
    GatherDomain(nodes, n);
  }

  lemma {:induction false} GatherDomain(nodes: seq<Box>, n: nat)
    requires n <= |nodes|
    ensures WellKeyed(Gather(nodes, n))
    ensures forall name :: name in Gather(nodes, n).table <==> Labelled(nodes, n, name)
    decreases n
  {
    if n > 0 {
      GatherDomain(nodes, n - 1);
      var g0 := Gather(nodes, n - 1);
      var b := nodes[n - 1];
      EnterDomain(g0, LabelOf(b), b.info.groupColor, Holders(nodes, b.info.id));
      forall x ensures Labelled(nodes, n, x) <==> Labelled(nodes, n - 1, x) || Labels(nodes[n - 1], x) {
        LabelledStep(nodes, n, x);
      }
    }
  }

  /** The first-labelling list holds exactly the labels given. */
  lemma {:induction false} FirstLabelsHas(nodes: seq<Box>, n: nat)
    requires n <= |nodes|
    ensures forall name :: name in FirstLabels(nodes, n) <==> Labelled(nodes, n, name)
    decreases n
  {
    if n > 0 {
      FirstLabelsHas(nodes, n - 1);
      forall x ensures x in FirstLabels(nodes, n) <==> Labelled(nodes, n, x) {
        LabelledStep(nodes, n, x);
      }
    }
  }

  /** The non-index keys come out in the order of their first labelling node. */
  lemma {:induction false} GatherNamed(nodes: seq<Box>, n: nat)
    requires n <= |nodes|
    ensures Named(Gather(nodes, n).keys) == Named(FirstLabels(nodes, n))
    decreases n
  {
    if n > 0 {
      var keys, keys0 := Named(Gather(nodes, n).keys), Named(Gather(nodes, n - 1).keys);
      var labels, labels0 := Named(FirstLabels(nodes, n)), Named(FirstLabels(nodes, n - 1));
      var added := Named(NewLabel(nodes, n));
      assert keys == keys0 + added by {
        KeysStep(nodes, n);
      }
      assert keys0 == labels0 by {
        GatherNamed(nodes, n - 1);
      }
      assert labels == labels0 + added by {
        FirstLabelsStep(nodes, n);
        NamedAppend(FirstLabels(nodes, n - 1), NewLabel(nodes, n));
      }
      SameTail(keys, keys0, labels0, added, labels);
    }
  }

  /** Two sequences that extend equal prefixes by the same tail are equal. */
  lemma {:induction false} SameTail<X>(a: seq<X>, p: seq<X>, p': seq<X>, tail: seq<X>, b: seq<X>)
    requires a == p + tail && p == p' && b == p' + tail
    ensures a == b
  {
  }

  /** The label node n - 1 gives, when no entry has it yet. */
  function NewLabel(nodes: seq<Box>, n: nat): seq<string>
    requires 0 < n <= |nodes|
  {
    var name := LabelOf(nodes[n - 1]);
    if name != "" && name !in Gather(nodes, n - 1).table then [name] else []
  }

  lemma {:induction false} FirstLabelsStep(nodes: seq<Box>, n: nat)
    requires 0 < n <= |nodes|
    ensures FirstLabels(nodes, n) == FirstLabels(nodes, n - 1) + NewLabel(nodes, n)
  {
    var name := LabelOf(nodes[n - 1]);
    if name != "" {
      assert FirstToLabel(nodes, n - 1, name) <==> name !in Gather(nodes, n - 1).table by {
        GatherHas(nodes, n - 1, name);
        LabelledStep(nodes, n, name);
      }
    }
  }

  lemma {:induction false} KeysStep(nodes: seq<Box>, n: nat)
    requires 0 < n <= |nodes|
    ensures Named(Gather(nodes, n).keys) == Named(Gather(nodes, n - 1).keys) + Named(NewLabel(nodes, n))
  {
    var g0 := Gather(nodes, n - 1);
    var b := nodes[n - 1];
    var name := LabelOf(b);
    GatherDomain(nodes, n - 1);
    EnterDomain(g0, name, b.info.groupColor, Holders(nodes, b.info.id));
    assert Gather(nodes, n) == Enter(g0, name, b.info.groupColor, Holders(nodes, b.info.id));
    if name != "" && name !in g0.table {
      NamedSingle(name);
    } else {
      assert Named([]) == [];
    }
  }

  /**
   * The keys are exactly the labels given, and those that are not array indices come
   * out in the order of their first labelling node.
   */
  lemma {:induction false} GatherOrder(nodes: seq<Box>, n: nat)
    requires n <= |nodes|
    ensures forall name :: name in Gather(nodes, n).keys <==> name in FirstLabels(nodes, n)
    ensures Named(Gather(nodes, n).keys) == Named(FirstLabels(nodes, n))
  {
    GatherDomain(nodes, n);
    FirstLabelsHas(nodes, n);
    GatherNamed(nodes, n);
  }

  /** The members of group `name` are exactly the listed nodes whose path holds the id of a node labelling it. */
  lemma {:induction false} GatherMembers(nodes: seq<Box>, n: nat)
    requires n <= |nodes|
    ensures forall name, j: nat :: name in Gather(nodes, n).table ==>
      (j in Gather(nodes, n).table[name].members <==> j < |nodes| && HeldBy(nodes, n, name, j))
    decreases n
  {
    if n > 0 {
      GatherMembers(nodes, n - 1);
      forall other, j: nat | other in Gather(nodes, n).table
        ensures j in Gather(nodes, n).table[other].members <==> j < |nodes| && HeldBy(nodes, n, other, j)
      {
        MembersStep(nodes, n, other, j);
      }
    }
  }

  /** One node's visit keeps the members of group `other` equal to the listed nodes it holds. */
  lemma {:induction false} MembersStep(nodes: seq<Box>, n: nat, other: string, j: nat)
    requires 0 < n <= |nodes| && other in Gather(nodes, n).table
    requires var g0 := Gather(nodes, n - 1);
      other in g0.table ==> (j in g0.table[other].members <==> j < |nodes| && HeldBy(nodes, n - 1, other, j))
    ensures j in Gather(nodes, n).table[other].members <==> j < |nodes| && HeldBy(nodes, n, other, j)
  {
    var g0 := Gather(nodes, n - 1);
    var b := nodes[n - 1];
    var name := LabelOf(b);
    var hs := Holders(nodes, b.info.id);
    var g := Enter(g0, name, b.info.groupColor, hs);
    assert g == Gather(nodes, n);
    if name != "" {
      EnterEntries(g0, name, b.info.groupColor, hs);
    }
    assert other !in g0.table ==> !Labelled(nodes, n - 1, other) by {
      GatherHas(nodes, n - 1, other);
    }
    if j < |nodes| {
      HeldByStep(nodes, n, other, j);
    }
  }

  /** Node i is the first to label group `name` and gives the group its colour (#CBD5E1 when it has none). */
  predicate ColouredBy(nodes: seq<Box>, i: nat, name: string, color: string)
    requires i < |nodes|
  {
    Labels(nodes[i], name) && FirstToLabel(nodes, i, name) && color == OrElse(nodes[i].info.groupColor, DefaultGroupColor)
  }

  /** A group's colour is that of its first labelling node. */
  lemma {:induction false} GatherColor(nodes: seq<Box>, n: nat)
    requires n <= |nodes|
    ensures forall name :: name in Gather(nodes, n).table ==>
      exists i :: 0 <= i < n && ColouredBy(nodes, i, name, Gather(nodes, n).table[name].color)
    decreases n
  {
    if n > 0 {
      GatherColor(nodes, n - 1);
      forall other | other in Gather(nodes, n).table
        ensures exists i :: 0 <= i < n && ColouredBy(nodes, i, other, Gather(nodes, n).table[other].color)
      {
        ColourStep(nodes, n, other);
      }
    }
  }

  /** Visiting node n - 1 keeps the colour of an existing group and colours a new one after that node. */
  lemma {:induction false} ColourStep(nodes: seq<Box>, n: nat, other: string)
    requires 0 < n <= |nodes| && other in Gather(nodes, n).table
    requires var g0 := Gather(nodes, n - 1);
      other in g0.table ==> exists i :: 0 <= i < n - 1 && ColouredBy(nodes, i, other, g0.table[other].color)
    ensures exists i :: 0 <= i < n && ColouredBy(nodes, i, other, Gather(nodes, n).table[other].color)
  {
    if other in Gather(nodes, n - 1).table {
      var i :| 0 <= i < n - 1 && ColouredBy(nodes, i, other, Gather(nodes, n - 1).table[other].color);
      ColourKept(nodes, n, other, i);
    } else {
      ColourNew(nodes, n, other);
    }
  }

  /** Visiting a node never changes the colour of a group that already has an entry. */
  lemma {:induction false} ColourKept(nodes: seq<Box>, n: nat, other: string, i: nat)
    requires 0 < n <= |nodes| && i < n - 1 && other in Gather(nodes, n - 1).table
    requires ColouredBy(nodes, i, other, Gather(nodes, n - 1).table[other].color)
    ensures other in Gather(nodes, n).table
    ensures ColouredBy(nodes, i, other, Gather(nodes, n).table[other].color)
  {
    var g0 := Gather(nodes, n - 1);
    var b := nodes[n - 1];
    var name, hs := LabelOf(b), Holders(nodes, b.info.id);
    assert Gather(nodes, n) == Enter(g0, name, b.info.groupColor, hs);
    if name != "" {
      EnterEntries(g0, name, b.info.groupColor, hs);
    }
  }

  /** A group that gets its entry at node n - 1 takes that node's colour, and no earlier node labels it. */
  lemma {:induction false} ColourNew(nodes: seq<Box>, n: nat, other: string)
    requires 0 < n <= |nodes| && other in Gather(nodes, n).table && other !in Gather(nodes, n - 1).table
    ensures ColouredBy(nodes, n - 1, other, Gather(nodes, n).table[other].color)
  {
    var g0 := Gather(nodes, n - 1);
    var b := nodes[n - 1];
    var name, hs := LabelOf(b), Holders(nodes, b.info.id);
    var g := Enter(g0, name, b.info.groupColor, hs);
    assert Gather(nodes, n) == g;
    assert name != "" && other == name;
    assert g.table[other].color == OrElse(b.info.groupColor, DefaultGroupColor) by {
      EnterEntries(g0, name, b.info.groupColor, hs);
    }
    assert FirstToLabel(nodes, n - 1, other) by {
      assert !Labelled(nodes, n - 1, other) by {
        GatherHas(nodes, n - 1, other);
      }
      LabelledStep(nodes, n, other);
    }
  }

  lemma {:induction false} PickHas(nodes: seq<Box>, members: set<nat>, s: nat, j: nat)
    requires s <= j < |nodes| && j in members
    ensures nodes[j] in Pick(nodes, members, s)
    decreases |nodes| - s
  {
    var head := if s in members then [nodes[s]] else [];
    var rest := Pick(nodes, members, s + 1);
    assert Pick(nodes, members, s) == head + rest;
    if s < j {
      PickHas(nodes, members, s + 1, j);
      assert nodes[j] in head + rest;
    } else {
      assert head == [nodes[j]];
      assert (head + rest)[0] == nodes[j];
    }
  }

  /** x is listed node j for some member j at or after s. */
  predicate PickedFrom(nodes: seq<Box>, members: set<nat>, s: nat, x: Box) {
    exists j :: s <= j < |nodes| && j in members && x == nodes[j]
  }

  lemma {:induction false} PickFrom(nodes: seq<Box>, members: set<nat>, s: nat)
    ensures forall k :: 0 <= k < |Pick(nodes, members, s)| ==> PickedFrom(nodes, members, s, Pick(nodes, members, s)[k])
    decreases |nodes| - s
  {
    if s < |nodes| {
      PickFrom(nodes, members, s + 1);
      var head := if s in members then [nodes[s]] else [];
      var rest := Pick(nodes, members, s + 1);
      var all := Pick(nodes, members, s);
      assert all == head + rest;
      forall k | 0 <= k < |all| ensures PickedFrom(nodes, members, s, all[k]) {
        if k < |head| {
          assert all[k] == nodes[s];
        } else {
          assert all[k] == rest[k - |head|];
          assert PickedFrom(nodes, members, s + 1, rest[k - |head|]);
          var j :| s + 1 <= j < |nodes| && j in members && rest[k - |head|] == nodes[j];
        }
      }
    }
  }

  lemma {:induction false} EmitAt(nodes: seq<Box>, table: map<string, Bucket>, keys: seq<string>)
    requires forall k :: 0 <= k < |keys| ==> keys[k] in table && Pick(nodes, table[keys[k]].members, 0) != []
    ensures |EmitGroups(nodes, table, keys)| == |keys|
    ensures forall k :: 0 <= k < |keys| ==>
      EmitGroups(nodes, table, keys)[k] == LabelGroup(keys[k], table[keys[k]].color, Pick(nodes, table[keys[k]].members, 0))
    decreases keys
  {
    if keys != [] {
      EmitAt(nodes, table, keys[1..]);
      var gs := EmitGroups(nodes, table, keys);
      forall k | 1 <= k < |keys|
        ensures gs[k] == LabelGroup(keys[k], table[keys[k]].color, Pick(nodes, table[keys[k]].members, 0))
      {
        assert gs[k] == EmitGroups(nodes, table, keys[1..])[k - 1];
      }
    }
  }

  /** Every listed node has its own id on its path, as the flattened listing guarantees. */
  predicate OwnIdsOnPaths(nodes: seq<Box>) {
    forall k :: 0 <= k < |nodes| ==> nodes[k].info.id in nodes[k].path
  }

  /**
   * One label group per distinct label, in `Object.keys` order, each named
   * "group-<label>", captioned with the label and coloured by its first labelling node.
   */
  lemma {:induction false} LabelGroupsPerKey(nodes: seq<Box>)
    requires OwnIdsOnPaths(nodes)
    ensures var g := Gather(nodes, |nodes|); var gs := LabelGroups(nodes);
      && |gs| == |g.keys|
      && forall i :: 0 <= i < |gs| ==>
        && g.keys[i] in g.table
        && Pick(nodes, g.table[g.keys[i]].members, 0) != []
        && gs[i] == LabelGroup(g.keys[i], g.table[g.keys[i]].color, Pick(nodes, g.table[g.keys[i]].members, 0))
        && gs[i].id == "group-" + g.keys[i] && gs[i].caption == g.keys[i] && !gs[i].isZone
  {
    var g := Gather(nodes, |nodes|);
    GatherDomain(nodes, |nodes|);
    GatherMembers(nodes, |nodes|);
    forall k | 0 <= k < |g.keys|
      ensures g.keys[k] in g.table && Pick(nodes, g.table[g.keys[k]].members, 0) != []
    {
      var name := g.keys[k];
      assert Labelled(nodes, |nodes|, name);
      var i :| 0 <= i < |nodes| && Labels(nodes[i], name);
      assert HeldBy(nodes, |nodes|, name, i);
      PickHas(nodes, g.table[name].members, 0, i);
    }
    EmitAt(nodes, g.table, g.keys);
  }

  /** Members of placed nodes are placed. */
  lemma {:induction false} PickPlaced(nodes: seq<Box>, members: set<nat>)
    requires AllPlaced(nodes)
    ensures AllPlaced(Pick(nodes, members, 0))
  {
    var ms := Pick(nodes, members, 0);
    PickFrom(nodes, members, 0);
    forall k | 0 <= k < |ms| ensures ms[k].at.Some? {
      assert PickedFrom(nodes, members, 0, ms[k]);
    }
  }

  /** The rectangle around a member set, padded by `pad`, when every listed node is placed. */
  function MemberRect(nodes: seq<Box>, members: set<nat>, pad: real): Rect
    requires AllPlaced(nodes) && Pick(nodes, members, 0) != []
  {
    PickPlaced(nodes, members);
    Padded(ExtentOf(Pick(nodes, members, 0)), pad).value
  }

  /** The padded rectangle of a member set frames every member. */
  lemma {:induction false} MembersFramed(nodes: seq<Box>, members: set<nat>, pad: real)
    requires AllPlaced(nodes) && Pick(nodes, members, 0) != []
    ensures forall j :: 0 <= j < |nodes| && j in members ==> Framed(nodes[j], MemberRect(nodes, members, pad), pad)
  {
    var ms := Pick(nodes, members, 0);
    PickPlaced(nodes, members);
    PaddedFrame(ms, pad);
    forall j | 0 <= j < |nodes| && j in members ensures Framed(nodes[j], MemberRect(nodes, members, pad), pad) {
      PickHas(nodes, members, 0, j);
    }
  }

  /** Each side of a member set's padded rectangle is exactly `pad` from some member. */
  predicate TouchedByMembers(nodes: seq<Box>, members: set<nat>, r: Rect, pad: real)
    requires AllPlaced(nodes)
  {
    && (exists j :: 0 <= j < |nodes| && j in members && nodes[j].at.value.x == r.x + pad)
    && (exists j :: 0 <= j < |nodes| && j in members && nodes[j].at.value.y == r.y + pad)
    && (exists j :: 0 <= j < |nodes| && j in members && nodes[j].at.value.x + nodes[j].w == r.x + r.w - pad)
    && (exists j :: 0 <= j < |nodes| && j in members && nodes[j].at.value.y + nodes[j].h == r.y + r.h - pad)
  }

  /** The listing index of the k-th picked member. */
  lemma {:induction false} PickIndex(nodes: seq<Box>, members: set<nat>, k: nat) returns (j: nat)
    requires k < |Pick(nodes, members, 0)|
    ensures j < |nodes| && j in members && Pick(nodes, members, 0)[k] == nodes[j]
  {
    PickFrom(nodes, members, 0);
    assert PickedFrom(nodes, members, 0, Pick(nodes, members, 0)[k]);
    j :| 0 <= j < |nodes| && j in members && Pick(nodes, members, 0)[k] == nodes[j];
  }

  /** A side touched by a picked box is touched by the member it comes from. */
  lemma {:induction false} TouchFromPick(nodes: seq<Box>, members: set<nat>, r: Rect, pad: real)
    requires AllPlaced(nodes) && AllPlaced(Pick(nodes, members, 0))
    requires TouchedBy(Pick(nodes, members, 0), r, pad)
    ensures TouchedByMembers(nodes, members, r, pad)
  {
    var ms := Pick(nodes, members, 0);
    var k1 :| 0 <= k1 < |ms| && ms[k1].at.value.x == r.x + pad;
    var j1 := PickIndex(nodes, members, k1);
    var k2 :| 0 <= k2 < |ms| && ms[k2].at.value.y == r.y + pad;
    var j2 := PickIndex(nodes, members, k2);
    var k3 :| 0 <= k3 < |ms| && ms[k3].at.value.x + ms[k3].w == r.x + r.w - pad;
    var j3 := PickIndex(nodes, members, k3);
    var k4 :| 0 <= k4 < |ms| && ms[k4].at.value.y + ms[k4].h == r.y + r.h - pad;
    var j4 := PickIndex(nodes, members, k4);
  }

  lemma {:induction false} MembersTouch(nodes: seq<Box>, members: set<nat>, pad: real)
    requires AllPlaced(nodes) && Pick(nodes, members, 0) != []
    ensures TouchedByMembers(nodes, members, MemberRect(nodes, members, pad), pad)
  {
    PickPlaced(nodes, members);
    PaddedFrame(Pick(nodes, members, 0), pad);
    TouchFromPick(nodes, members, MemberRect(nodes, members, pad), pad);
  }

  /**
   * When every listed node is placed, label group i is drawn as the rectangle around
   * exactly the nodes holding a labeller's id on their path, with 25 of room.
   */
  lemma {:induction false} LabelGroupFrame(nodes: seq<Box>, i: nat)
    requires OwnIdsOnPaths(nodes) && AllPlaced(nodes)
    requires i < |Gather(nodes, |nodes|).keys| && i < |LabelGroups(nodes)|
    ensures Gather(nodes, |nodes|).keys[i] in Gather(nodes, |nodes|).table
    ensures Pick(nodes, Gather(nodes, |nodes|).table[Gather(nodes, |nodes|).keys[i]].members, 0) != []
    ensures LabelGroups(nodes)[i].rect == Some(MemberRect(nodes, Gather(nodes, |nodes|).table[Gather(nodes, |nodes|).keys[i]].members, GroupPad))
    ensures forall j :: 0 <= j < |nodes| ==>
      (j in Gather(nodes, |nodes|).table[Gather(nodes, |nodes|).keys[i]].members <==> HeldBy(nodes, |nodes|, Gather(nodes, |nodes|).keys[i], j))
  {
    LabelGroupsPerKey(nodes);
    GatherMembers(nodes, |nodes|);
    var g := Gather(nodes, |nodes|);
    PickPlaced(nodes, g.table[g.keys[i]].members);
  }

  // ----- zones -----

  /** The records of a list of trees' roots. */
  function KidVals(kids: seq<PTree>): (vs: seq<Placed>)
    ensures |vs| == |kids| && forall i :: 0 <= i < |kids| ==> vs[i] == kids[i].val
  {
    seq(|kids|, i requires 0 <= i < |kids| => kids[i].val)
  }

  /** The level-1 nodes: the children of every root, root by root. */
  function Level1(roots: seq<PTree>): seq<Placed> {
    if roots == [] then [] else KidVals(roots[0].kids) + Level1(roots[1..])
  }

  /** A level-1 node as a member of its own zone (its path plays no part there). */
  function AsBox(p: Placed): Box {
    Box(p.info, p.w, p.h, p.at, [])
  }

  /** `allNodes.filter(n => n.path && n.path.includes(id))`. */
  function Descendants(nodes: seq<Box>, id: string): (ds: seq<Box>) {
    if nodes == [] then [] else (if id in nodes[0].path then [nodes[0]] else []) + Descendants(nodes[1..], id)
  }

  /** The filter keeps exactly the listed nodes whose path holds the id. */
  lemma {:induction false} DescendantsSpec(nodes: seq<Box>, id: string)
    ensures forall k :: 0 <= k < |Descendants(nodes, id)| ==>
      id in Descendants(nodes, id)[k].path && Descendants(nodes, id)[k] in nodes
    ensures forall k :: 0 <= k < |nodes| && id in nodes[k].path ==> nodes[k] in Descendants(nodes, id)
    decreases nodes
  {
    if nodes != [] {
      var tail := nodes[1..];
      DescendantsSpec(tail, id);
      var head := if id in nodes[0].path then [nodes[0]] else [];
      var ds, rest := Descendants(nodes, id), Descendants(tail, id);
      assert ds == head + rest;
      forall k | 0 <= k < |ds| ensures id in ds[k].path && ds[k] in nodes {
        if k < |head| {
          assert ds[k] == nodes[0];
        } else {
          assert ds[k] == rest[k - |head|];
          assert rest[k - |head|] in tail;
        }
      }
      forall k | 0 <= k < |nodes| && id in nodes[k].path ensures nodes[k] in ds {
        if k == 0 {
          assert ds[0] == nodes[0];
        } else {
          assert nodes[k] == tail[k - 1];
          assert nodes[k] in rest;
        }
      }
    }
  }

  /** s holds no line-break marker. */
  predicate NoBreak(s: string) {
    forall i :: 0 <= i < |s| ==> !BreakAt(s, i)
  }

  /** The caption a zone gets by default: the first line of its node's text plus " Zone", or "Zone" for no text. */
  function ZoneCaption(text: string): string {
    if text != "" then FirstLine(text) + " Zone" else "Zone"
  }

  /**
   * The zone of level-1 node l1 at position idx: its members are l1 and the listed
   * nodes whose path contains l1's id; a caller override's caption and colour win over
   * the defaults when they are not empty.
   */
  function ZoneOf(l1: Placed, idx: nat, nodes: seq<Box>, overrides: map<string, ZoneOverride>): Group {
    var id := l1.info.id;
    var ov := if id in overrides then overrides[id] else ZoneOverride("", "");
    Group("zone-" + id, ZoneRect(l1, nodes), OrElse(ov.caption, ZoneCaption(l1.info.text)),
          OrElse(ov.color, Palette[idx % |Palette|]), true, id)
  }

  /** A zone's members: its level-1 node, then the listed nodes whose path holds that node's id. */
  function ZoneMembers(l1: Placed, nodes: seq<Box>): seq<Box> {
    [AsBox(l1)] + Descendants(nodes, l1.info.id)
  }

  /** A zone's rectangle: its members' bounding box padded by 40. */
  function ZoneRect(l1: Placed, nodes: seq<Box>): Option<Rect> {
    Padded(ExtentOf(ZoneMembers(l1, nodes)), ZonePad)
  }

  /** `level1Nodes.push(...r.children)` for each root in turn. */
  method CollectLevel1(roots: seq<PTree>) returns (level1: seq<Placed>)
    ensures level1 == Level1(roots)
  {
    level1 := [];
    var r := 0;
    while r < |roots|
      invariant 0 <= r <= |roots|
      invariant level1 + Level1(roots[r..]) == Level1(roots)
    {
      assert roots[r..][1..] == roots[r + 1..];
      var kids := roots[r].kids;
      if |kids| > 0 {
        var vs := seq(|kids|, i requires 0 <= i < |kids| => kids[i].val);
        level1 := level1 + vs;
      }
      r := r + 1;
    }
    assert roots[r..] == [];
  }

  /** The zones, when enabled: one per level-1 node, in order. */
  method Zones(roots: seq<PTree>, nodes: seq<Box>, overrides: map<string, ZoneOverride>) returns (zones: seq<Group>)
    ensures |zones| == |Level1(roots)|
    ensures forall i :: 0 <= i < |zones| ==> zones[i] == ZoneOf(Level1(roots)[i], i, nodes, overrides)
  {
    var level1 := CollectLevel1(roots);
    zones := [];
    var idx := 0;
    while idx < |level1|
      invariant 0 <= idx <= |level1|
      invariant |zones| == idx
      invariant forall i :: 0 <= i < idx ==> zones[i] == ZoneOf(level1[i], i, nodes, overrides)
    {
      zones := AppendZone(level1, idx, nodes, overrides, zones);
      idx := idx + 1;
    }
  }

  /** One turn of the zone loop: the zone of level1[idx] goes on the end. */
  method AppendZone(level1: seq<Placed>, idx: nat, nodes: seq<Box>, overrides: map<string, ZoneOverride>, zones: seq<Group>)
    returns (zones': seq<Group>)
    requires idx < |level1| && |zones| == idx
    requires forall i :: 0 <= i < idx ==> zones[i] == ZoneOf(level1[i], i, nodes, overrides)
    ensures |zones'| == idx + 1
    ensures forall i :: 0 <= i < idx + 1 ==> zones'[i] == ZoneOf(level1[i], i, nodes, overrides)
  {
    var zone := ZoneFor(level1[idx], idx, nodes, overrides);
    zones' := zones + [zone];
  }

  /** The zone of level-1 node l1, the idx-th: its members' padded box, its caption and colour. */
  method ZoneFor(l1: Placed, idx: nat, nodes: seq<Box>, overrides: map<string, ZoneOverride>) returns (zone: Group)
    ensures zone == ZoneOf(l1, idx, nodes, overrides)
  {
    var members := [AsBox(l1)] + Descendants(nodes, l1.info.id);
    assert members == ZoneMembers(l1, nodes);
    var defaultColor := Palette[idx % |Palette|];
    var defaultCaption := if l1.info.text != "" then FirstLine(l1.info.text) + " Zone" else "Zone";
    var ov := if l1.info.id in overrides then overrides[l1.info.id] else ZoneOverride("", "");
    zone := Group("zone-" + l1.info.id, Padded(ExtentOf(members), ZonePad), OrElse(ov.caption, defaultCaption),
                  OrElse(ov.color, defaultColor), true, l1.info.id);
  }

  /**
   * The rectangle of a zone whose level-1 node is placed, over a listing whose nodes
   * are all placed, frames the level-1 node and every listed node whose path holds its id, with 40
   * of room, and each side is exactly 40 from one of them.
   */
  lemma {:induction false} ZoneFrame(l1: Placed, nodes: seq<Box>)
    requires l1.at.Some? && AllPlaced(nodes)
    ensures ZoneRect(l1, nodes).Some?
    ensures Framed(AsBox(l1), ZoneRect(l1, nodes).value, ZonePad)
    ensures forall k :: 0 <= k < |nodes| && l1.info.id in nodes[k].path ==> Framed(nodes[k], ZoneRect(l1, nodes).value, ZonePad)
    ensures TouchedBy(ZoneMembers(l1, nodes), ZoneRect(l1, nodes).value, ZonePad)
  {
    var ds := Descendants(nodes, l1.info.id);
    var ms := ZoneMembers(l1, nodes);
    DescendantsSpec(nodes, l1.info.id);
    assert AllPlaced(ms) by {
      forall k | 0 <= k < |ms| ensures ms[k].at.Some? {
        if k > 0 {
          assert ms[k] == ds[k - 1];
          assert ds[k - 1] in nodes;
        }
      }
    }
    PaddedFrame(ms, ZonePad);
    var r := ZoneRect(l1, nodes).value;
    assert ms[0] == AsBox(l1);
    forall k | 0 <= k < |nodes| && l1.info.id in nodes[k].path ensures Framed(nodes[k], r, ZonePad) {
      assert nodes[k] in ds;
      var m :| 0 <= m < |ds| && ds[m] == nodes[k];
      assert ms[m + 1] == nodes[k];
    }
  }

  /** The caller sets no colour for the zone of `id`. */
  predicate DefaultColour(id: string, overrides: map<string, ZoneOverride>) {
    id !in overrides || overrides[id].color == ""
  }

  /**
   * Without a colour override a zone takes palette entry idx mod 6; the palette
   * repeats every six zones, and two consecutive zones never share a colour.
   */
  lemma {:induction false} ZoneColours(a: Placed, b: Placed, idx: nat, nodes: seq<Box>, overrides: map<string, ZoneOverride>)
    requires DefaultColour(a.info.id, overrides) && DefaultColour(b.info.id, overrides)
    ensures ZoneOf(a, idx, nodes, overrides).color == Palette[idx % 6]
    ensures ZoneOf(a, idx + 6, nodes, overrides).color == ZoneOf(a, idx, nodes, overrides).color
    ensures ZoneOf(b, idx + 1, nodes, overrides).color != ZoneOf(a, idx, nodes, overrides).color
  {
    assert (idx + 6) % 6 == idx % 6;
    assert (idx + 1) % 6 != idx % 6;
  }

  /**
   * Without a caption override a zone of a node without text is captioned "Zone";
   * otherwise its caption is the text's first line, up to the first line-break
   * marker or the end of the text, followed by " Zone". A caption override that is not empty wins.
   */
  lemma {:induction false} ZoneCaptions(l1: Placed, idx: nat, nodes: seq<Box>, overrides: map<string, ZoneOverride>)
    ensures var id := l1.info.id; var c := ZoneOf(l1, idx, nodes, overrides).caption;
      && (id in overrides && overrides[id].caption != "" ==> c == overrides[id].caption)
      && (id !in overrides || overrides[id].caption == "" ==>
            && (l1.info.text == "" ==> c == "Zone")
            && (l1.info.text != "" ==>
                  && c == FirstLine(l1.info.text) + " Zone"
                  && |c| >= 5 && c[|c| - 5..] == " Zone"
                  && c[..|c| - 5] == l1.info.text[..|c| - 5]
                  && LineEnd(l1.info.text, |c| - 5)
                  && NoBreak(c[..|c| - 5])))
  {
    var c := ZoneOf(l1, idx, nodes, overrides).caption;
    if l1.info.text != "" {
      var line := FirstLine(l1.info.text);
      if l1.info.id !in overrides || overrides[l1.info.id].caption == "" {
        assert c == line + " Zone";
        assert c[..|c| - 5] == line;
        forall i | 0 <= i < |line| ensures !BreakAt(line, i) {
          assert !BreakAt(l1.info.text, i);
        }
      }
    }
  }

  /** Every node listed from a subtree carries the subtree root's id on its path: the whole subtree is in the root's zone. */
  lemma {:induction false} SubtreeCarriesId(t: PTree, path: seq<string>)
    ensures forall k :: 0 <= k < |FlattenTree(t, path)| ==> t.val.info.id in FlattenTree(t, path)[k].path
  {
    var own := path + [t.val.info.id];
    var kids := FlattenF(t.kids, own);
    FlattenPathEnds(t.kids, own);
    var all := FlattenTree(t, path);
    assert all == [all[0]] + kids;
    forall k | 0 <= k < |all| ensures t.val.info.id in all[k].path {
      if k == 0 {
        assert all[0].path == own && own[|own| - 1] == t.val.info.id;
      } else {
        var p := kids[k - 1].path;
        assert all[k] == kids[k - 1];
        assert PathEndsWith(kids[k - 1], own);
        assert p[..|own|] == own;
        assert p[|own| - 1] == own[|own| - 1];
      }
    }
  }
}
