/**
 * Pre-order flattening with ancestor paths (src/engine.js, flattenNodes).
 *
 * Every node is listed once, parents before children, with `path`: the ids from its
 * root down to itself. The source stores the path on the node object and pushes the
 * object; here each listed node is a `Box` value carrying its path.
 */
module Flatten {
  import opened Wrappers
  import opened Trees
  import opened Diagram
  import opened Placement

  /** A listed node: its record, box size, corner (if placed) and ancestor path of ids. */
  datatype Box = Box(info: Info, w: real, h: real, at: Option<Point>, path: seq<string>)

  /** flattenNodes(t, path): t first, with `path` extended by its own id, then its children's listings; one entry per node. */
  function FlattenTree(t: PTree, path: seq<string>): (r: seq<Box>)
    ensures |r| == Size(t)
    decreases t
  {
    var own := path + [t.val.info.id];
    [Box(t.val.info, t.val.w, t.val.h, t.val.at, own)] + FlattenF(t.kids, own)
  }

  /** The listings of a forest's trees, one after the other; one entry per node. */
  function FlattenF(f: seq<PTree>, path: seq<string>): (r: seq<Box>)
    ensures |r| == SizeF(f)
    decreases f
  {
    if f == [] then [] else FlattenTree(f[0], path) + FlattenF(f[1..], path)
  }

  /** flattenNodes as the source writes it: push the node, then recurse into each child with the extended path. */
  method FlattenNodes(t: PTree, path: seq<string>, nodes: seq<Box>) returns (out: seq<Box>)
    ensures out == nodes + FlattenTree(t, path)
    decreases t
  {
    var currentPath := path + [t.val.info.id];
    out := nodes + [Box(t.val.info, t.val.w, t.val.h, t.val.at, currentPath)];
    var i := 0;
    while i < |t.kids|
      invariant 0 <= i <= |t.kids|
      invariant out + FlattenF(t.kids[i..], currentPath) == nodes + FlattenTree(t, path)
    {
      assert t.kids[i..][1..] == t.kids[i + 1..];
      out := FlattenNodes(t.kids[i], currentPath, out);
      i := i + 1;
    }
    assert t.kids[i..] == [];
  }

  /** The listing is the pre-order of the forest: listed node k carries the k-th pre-order node's record, size and corner. */
  lemma {:induction false} FlattenPreorder(f: seq<PTree>, path: seq<string>)
    ensures var r := FlattenF(f, path);
      |r| == |ValsF(f)| &&
      forall k :: 0 <= k < |r| ==>
        r[k].info == ValsF(f)[k].info && r[k].at == ValsF(f)[k].at && r[k].w == ValsF(f)[k].w && r[k].h == ValsF(f)[k].h
    decreases f
  {
    ValsFSize(f);
    if f != [] {
      var t := f[0];
      var own := path + [t.val.info.id];
      FlattenPreorder(t.kids, own);
      FlattenPreorder(f[1..], path);
      var a := FlattenF(t.kids, own);
      var b := FlattenF(f[1..], path);
      var va := ValsF(t.kids);
      var vb := ValsF(f[1..]);
      var r := FlattenF(f, path);
      var v := ValsF(f);
      assert r == FlattenTree(t, path) + b;
      assert FlattenTree(t, path) == [r[0]] + a;
      assert v == [t.val] + va + vb;
      forall k | 0 <= k < |r|
        ensures r[k].info == v[k].info && r[k].at == v[k].at && r[k].w == v[k].w && r[k].h == v[k].h
      {
        if k == 0 {
        } else if k < 1 + |a| {
          assert r[k] == a[k - 1] && v[k] == va[k - 1];
        } else {
          assert r[k] == b[k - 1 - |a|] && v[k] == vb[k - 1 - |a|];
        }
      }
    }
  }

  /** A path's length is one more than the node's depth (counting the roots as depth d) plus the initial path. */
  lemma {:induction false} FlattenDepths(f: seq<PTree>, path: seq<string>, d: nat)
    ensures var r := FlattenF(f, path);
      |DepthsF(f, d)| == |r| &&
      forall k :: 0 <= k < |r| ==> |r[k].path| + d == |path| + 1 + DepthsF(f, d)[k]
    decreases f
  {
    DepthsFSize(f, d);
    if f != [] {
      var t := f[0];
      var own := path + [t.val.info.id];
      FlattenDepths(t.kids, own, d + 1);
      FlattenDepths(f[1..], path, d);
      var a := FlattenF(t.kids, own);
      var b := FlattenF(f[1..], path);
      var da := DepthsF(t.kids, d + 1);
      var db := DepthsF(f[1..], d);
      var r := FlattenF(f, path);
      var ds := DepthsF(f, d);
      assert r == FlattenTree(t, path) + b;
      assert FlattenTree(t, path) == [r[0]] + a;
      assert ds == [d] + da + db;
      forall k | 0 <= k < |r| ensures |r[k].path| + d == |path| + 1 + ds[k] {
        if k == 0 {
        } else if k < 1 + |a| {
          assert r[k] == a[k - 1] && ds[k] == da[k - 1];
        } else {
          assert r[k] == b[k - 1 - |a|] && ds[k] == db[k - 1 - |a|];
        }
      }
    }
  }

  /** The box's path extends `path` and ends with the box's own id. */
  predicate PathEndsWith(b: Box, path: seq<string>) {
    |path| < |b.path| && b.path[..|path|] == path && b.path[|b.path| - 1] == b.info.id
  }

  /** Every listed path extends the initial path and ends with the listed node's own id. */
  lemma {:induction false} FlattenPathEnds(f: seq<PTree>, path: seq<string>)
    ensures forall k :: 0 <= k < |FlattenF(f, path)| ==> PathEndsWith(FlattenF(f, path)[k], path)
    decreases f
  {
    if f != [] {
      var t := f[0];
      var own := path + [t.val.info.id];
      FlattenPathEnds(t.kids, own);
      FlattenPathEnds(f[1..], path);
      var a := FlattenF(t.kids, own);
      var b := FlattenF(f[1..], path);
      var r := FlattenF(f, path);
      assert r == FlattenTree(t, path) + b;
      assert FlattenTree(t, path) == [r[0]] + a;
      forall k | 0 <= k < |r|
        ensures PathEndsWith(r[k], path)
      {
        if k == 0 {
        } else if k < 1 + |a| {
          assert r[k] == a[k - 1];
          var pk := a[k - 1].path;
          assert |own| < |pk| && pk[..|own|] == own;
          assert pk[..|path|] == pk[..|own|][..|path|];
        } else {
          assert r[k] == b[k - 1 - |a|];
        }
      }
    }
  }

  /** The path of the node with pre-order parent `q` inside listing G, or `path` for a root. */
  function ParentPath(G: seq<Box>, q: Option<nat>, path: seq<string>): seq<string> {
    if q.Some? && q.value < |G| then G[q.value].path else path
  }

  /** Node `start + k` of G has the path of its parent `q[k]` (or `path` for a root) plus its own id. */
  predicate FollowsParents(G: seq<Box>, start: nat, q: seq<Option<nat>>, path: seq<string>) {
    start + |q| <= |G| &&
    forall k :: 0 <= k < |q| ==> G[start + k].path == ParentPath(G, q[k], path) + [G[start + k].info.id]
  }

  lemma {:induction false} FollowsJoin(G: seq<Box>, start: nat, q1: seq<Option<nat>>, q2: seq<Option<nat>>, path: seq<string>)
    requires FollowsParents(G, start, q1, path) && FollowsParents(G, start + |q1|, q2, path)
    ensures FollowsParents(G, start, q1 + q2, path)
  {
    var q := q1 + q2;
    forall k | 0 <= k < |q| ensures G[start + k].path == ParentPath(G, q[k], path) + [G[start + k].info.id] {
      if k >= |q1| {
        assert q[k] == q2[k - |q1|];
        assert G[start + |q1| + (k - |q1|)] == G[start + k];
      }
    }
  }

  /** When every parent lies inside G, the path given for roots does not matter. */
  lemma {:induction false} FollowsRebase(G: seq<Box>, start: nat, q: seq<Option<nat>>, p1: seq<string>, p2: seq<string>)
    requires FollowsParents(G, start, q, p1)
    requires forall k :: 0 <= k < |q| ==> q[k].Some? && q[k].value < |G|
    ensures FollowsParents(G, start, q, p2)
  {
  }

  /**
   * Paths inside a larger listing G that holds the listing of f from index `start`:
   * every node's path is its parent's path (or `path` for the forest's top trees)
   * with its own id appended.
   */
  lemma {:induction false} FlattenParentsAt(f: seq<PTree>, path: seq<string>, start: nat, par: Option<nat>, G: seq<Box>)
    requires Embeds(G, start, FlattenF(f, path))
    requires par.Some? ==> par.value < |G| && G[par.value].path == path
    ensures FollowsParents(G, start, ParentsF(f, start, par), path)
    decreases f
  {
    if f != [] {
      var t, rest := f[0], f[1..];
      var mid := start + Size(t);
      var q1 := [par] + ParentsF(t.kids, start + 1, Some(start));
      var q2 := ParentsF(rest, mid, par);
      assert Embeds(G, start, FlattenTree(t, path)) && Embeds(G, mid, FlattenF(rest, path)) by {
        var b := FlattenF(rest, path);
        assert FlattenF(f, path) == FlattenTree(t, path) + b;
        EmbedsSplit(G, start, FlattenTree(t, path), b);
      }
      assert FollowsParents(G, start, q1, path) by {
        TreeParentsAt(t, path, start, par, G);
      }
      assert FollowsParents(G, mid, q2, path) by {
        FlattenParentsAt(rest, path, mid, par, G);
      }
      assert start + |q1| == mid by {
        ParentsFSize(t.kids, start + 1, Some(start));
      }
      FollowsJoin(G, start, q1, q2, path);
      assert ParentsF(f, start, par) == q1 + q2;
    }
  }

  /** The same for one tree: its root's parent is `par`, its children's roots have the root as parent. */
  lemma {:induction false} TreeParentsAt(t: PTree, path: seq<string>, start: nat, par: Option<nat>, G: seq<Box>)
    requires Embeds(G, start, FlattenTree(t, path))
    requires par.Some? ==> par.value < |G| && G[par.value].path == path
    ensures FollowsParents(G, start, [par] + ParentsF(t.kids, start + 1, Some(start)), path)
    decreases t
  {
    var own := path + [t.val.info.id];
    var a := FlattenF(t.kids, own);
    var b0 := Box(t.val.info, t.val.w, t.val.h, t.val.at, own);
    EmbedsSplit(G, start, [b0], a);
    assert G[start + 0] == ([b0])[0];
    assert FollowsParents(G, start, [par], path);
    var qa := ParentsF(t.kids, start + 1, Some(start));
    FlattenParentsAt(t.kids, own, start + 1, Some(start), G);
    ParentsBefore(t.kids, start + 1, Some(start));
    ParentsFSize(t.kids, start + 1, Some(start));
    FollowsRebase(G, start + 1, qa, own, path);
    FollowsJoin(G, start, [par], qa, path);
  }

  /**
   * In the listing of a forest, a root's path is the initial path plus its id, and
   * any other node's path is its parent's path (the parent being listed earlier)
   * with the node's own id appended.
   */
  lemma {:induction false} FlattenPaths(f: seq<PTree>, path: seq<string>)
    ensures |Parents(f)| == |FlattenF(f, path)|
    ensures forall k :: 0 <= k < |FlattenF(f, path)| ==> PathFromParent(FlattenF(f, path), Parents(f), k, path)
  {
    var r := FlattenF(f, path);
    assert Embeds(r, 0, r);
    FlattenParentsAt(f, path, 0, None, r);
    ParentsBefore(f, 0, None);
    ParentsFSize(f, 0, None);
    var q := Parents(f);
    forall k | 0 <= k < |r| ensures PathFromParent(r, q, k, path) {
      assert r[0 + k] == r[k];
    }
  }

  /** Listed node k's path: its parent's (listed before it) or, for a root, `path`, plus its own id. */
  predicate PathFromParent(r: seq<Box>, q: seq<Option<nat>>, k: nat, path: seq<string>)
    requires k < |r| && k < |q|
  {
    (q[k].None? ==> r[k].path == path + [r[k].info.id]) &&
    (q[k].Some? ==> q[k].value < k && r[k].path == r[q[k].value].path + [r[k].info.id])
  }
}
