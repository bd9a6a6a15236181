/**
 * The editor's forest edits.
 *
 * Each edit of the editor searches a copy of the forest for a node by id and changes
 * it in that copy: merging fields into the node (`updateNode`), appending a child to
 * it (`addNode`), or cutting it out with its subtree (`deleteNode`). Here every edit is
 * a function from the old forest to `Some(new forest)`, or `None` when no node has the
 * id (the editor then changes nothing); the search loops of the editor are methods
 * proved to compute these functions. Each function is in turn characterised on the
 * pre-order listing of the forest (`ValsF`), independently of how it searches.
 */
module TreeEdits {
  import opened Wrappers
  import opened Trees
  import opened Diagram
  import opened Text

  // ---------------------------------------------------------------- searching by id

  /** No node of the listing has id `id`. */
  predicate NoId(vs: seq<Info>, id: string) {
    forall k :: 0 <= k < |vs| ==> vs[k].id != id
  }

  /** The first position in the listing whose node has id `id`. */
  function FirstMatch(vs: seq<Info>, id: string): Option<nat>
    decreases |vs|
  {
    if vs == [] then None
    else if vs[0].id == id then Some(0)
    else
      var rest := FirstMatch(vs[1..], id);
      if rest.None? then None else Some(rest.value + 1)
  }

  /** The first match has the id and no earlier node has it; there is none when no node has it. */
  lemma {:induction false} FirstMatchSpec(vs: seq<Info>, id: string)
    ensures FirstMatch(vs, id).None? <==> NoId(vs, id)
    ensures FirstMatch(vs, id).Some? ==>
      FirstMatch(vs, id).value < |vs| && vs[FirstMatch(vs, id).value].id == id && NoId(vs[..FirstMatch(vs, id).value], id)
    decreases |vs|
  {
    if vs != [] && vs[0].id != id {
      FirstMatchSpec(vs[1..], id);
      if NoId(vs[1..], id) {
        forall k | 0 <= k < |vs| ensures vs[k].id != id {
          if k > 0 {
            assert vs[k] == vs[1..][k - 1];
          }
        }
      } else {
        var m := FirstMatch(vs[1..], id).value;
        assert vs[..m + 1] == [vs[0]] + vs[1..][..m];
      }
    }
  }

  /** A position in a later part of a listing, counted from the listing's start. */
  function Shift(o: Option<nat>, n: nat): Option<nat> {
    if o.Some? then Some(o.value + n) else None
  }

  function OrElse(a: Option<nat>, b: Option<nat>): Option<nat> {
    if a.Some? then a else b
  }

  lemma {:induction false} FirstMatchAppend(a: seq<Info>, b: seq<Info>, id: string)
    ensures FirstMatch(a + b, id) == OrElse(FirstMatch(a, id), Shift(FirstMatch(b, id), |a|))
    decreases |a|
  {
    if a == [] {
      assert a + b == b;
    } else {
      assert (a + b)[0] == a[0];
      assert (a + b)[1..] == a[1..] + b;
      FirstMatchAppend(a[1..], b, id);
    }
  }

  /** The first match in a pre-order listing: the first root, then its descendants, then the rest. */
  lemma {:induction false} FirstMatchCons(v: Info, A: seq<Info>, B: seq<Info>, id: string)
    ensures FirstMatch([v] + A + B, id) ==
      if v.id == id then Some(0) else OrElse(Shift(FirstMatch(A, id), 1), Shift(FirstMatch(B, id), 1 + |A|))
  {
    var x := [v] + A + B;
    assert x[0] == v;
    if v.id != id {
      assert x[1..] == A + B;
      FirstMatchAppend(A, B, id);
    }
  }

  /** The trees before a found edit, put back in front of its result. */
  function Within(pre: Forest, o: Option<Forest>): (r: Option<Forest>)
    ensures r.Some? <==> o.Some?
  {
    if o.Some? then Some(pre + o.value) else None
  }

  /** Replacing element i is cutting the sequence around it. */
  lemma {:induction false} UpdateSplit<X>(s: seq<X>, i: nat, x: X)
    requires i < |s|
    ensures s[i := x] == s[..i] + ([x] + s[i + 1..])
  {
    var r := s[..i] + ([x] + s[i + 1..]);
    assert |r| == |s|;
    forall k | 0 <= k < |s| ensures r[k] == s[i := x][k] {
      if k > i {
        assert r[k] == s[i + 1..][k - i - 1];
      }
    }
  }

  lemma {:induction false} WithinEmpty(o: Option<Forest>)
    ensures Within([], o) == o
  {
    if o.Some? {
      assert [] + o.value == o.value;
    }
  }

  lemma {:induction false} WithinStep(pre: Forest, t: Node, o: Option<Forest>)
    ensures Within(pre, Within([t], o)) == Within(pre + [t], o)
  {
    if o.Some? {
      assert pre + ([t] + o.value) == (pre + [t]) + o.value;
    }
  }

  // ---------------------------------------------------------------- updating a node

  /** The fields an update sets; a field given as None keeps its old value. */
  datatype Patch = Patch(
    id: Option<string>,
    text: Option<string>,
    color: Option<string>,
    textColor: Option<string>,
    fontSize: Option<int>,
    fontWeight: Option<string>,
    groupLabel: Option<string>,
    groupColor: Option<string>,
    offsetX: Option<real>,
    offsetY: Option<real>)

  function Pick<X>(o: Option<X>, keep: X): X {
    if o.Some? then o.value else keep
  }

  /** `Object.assign(node, fields)`: the given fields replace the node's, the others stay. */
  function Merge(i: Info, p: Patch): Info {
    Info(Pick(p.id, i.id), Pick(p.text, i.text), Pick(p.color, i.color),
      Pick(p.textColor, i.textColor), Pick(p.fontSize, i.fontSize),
      Pick(p.fontWeight, i.fontWeight), Pick(p.groupLabel, i.groupLabel),
      Pick(p.groupColor, i.groupColor), Pick(p.offsetX, i.offsetX), Pick(p.offsetY, i.offsetY))
  }

  /**
   * The forest with the first node (in pre-order) whose id is `id` merged with `p`:
   * each tree is checked at its root, then searched, before the next tree.
   */
  function Replaced(f: Forest, id: string, p: Patch): Option<Forest>
    decreases f
  {
    if f == [] then None
    else if f[0].val.id == id then Some([Tree(Merge(f[0].val, p), f[0].kids)] + f[1..])
    else
      var inKids := Replaced(f[0].kids, id, p);
      if inKids.Some? then Some([Tree(f[0].val, inKids.value)] + f[1..])
      else Within([f[0]], Replaced(f[1..], id, p))
  }

  /** `r` is `f` with the node at pre-order position j merged with `p`, and nothing else changed. */
  predicate MergedAt(r: Forest, f: Forest, j: nat, p: Patch) {
    && j < |ValsF(f)|
    && SameShapeF(r, f)
    && ValsF(r) == ValsF(f)[j := Merge(ValsF(f)[j], p)]
  }

  lemma {:induction false} UpdateMiddle<X>(a: seq<X>, b: seq<X>, c: seq<X>, j: nat, x: X)
    requires j < |b|
    ensures (a + b + c)[|a| + j := x] == a + b[j := x] + c
  {
    assert |(a + b + c)[|a| + j := x]| == |a + b[j := x] + c|;
  }

  /**
   * An update finds a node exactly when some node has the id, and then changes only the
   * first such node in pre-order, by merging the fields into it: the shape of the
   * forest and every other node stay as they were.
   */
  lemma {:induction false} ReplacedSpec(f: Forest, id: string, p: Patch)
    ensures Replaced(f, id, p).None? <==> FirstMatch(ValsF(f), id).None?
    ensures Replaced(f, id, p).Some? ==> MergedAt(Replaced(f, id, p).value, f, FirstMatch(ValsF(f), id).value, p)
    decreases f
  {
    if f != [] {
      if f[0].val.id == id {
        ReplacedHere(f, id, p);
      } else {
        ReplacedSpec(f[0].kids, id, p);
        if Replaced(f[0].kids, id, p).Some? {
          ReplacedKids(f, id, p);
        } else {
          ReplacedSpec(f[1..], id, p);
          ReplacedRest(f, id, p);
        }
      }
    }
  }

  /** The first root has the id: it is the first match, and only it is merged. */
  lemma {:induction false} ReplacedHere(f: Forest, id: string, p: Patch)
    requires f != [] && f[0].val.id == id
    ensures Replaced(f, id, p).Some? && FirstMatch(ValsF(f), id).Some?
    ensures MergedAt(Replaced(f, id, p).value, f, FirstMatch(ValsF(f), id).value, p)
  {
    var t, rest := f[0], f[1..];
    var A, B := ValsF(t.kids), ValsF(rest);
    ValsFCons(f);
    FirstMatchCons(t.val, A, B, id);
    var r := [Tree(Merge(t.val, p), t.kids)] + rest;
    ValsFCons(r);
    assert r[1..] == rest;
    SameShapeRefl(t.kids);
    SameShapeRefl(rest);
    UpdateMiddle([], [t.val], A + B, 0, Merge(t.val, p));
  }

  /** The first match lies below the first root: the update happens there. */
  lemma {:induction false} ReplacedKids(f: Forest, id: string, p: Patch)
    requires f != [] && f[0].val.id != id
    requires Replaced(f[0].kids, id, p).Some? && FirstMatch(ValsF(f[0].kids), id).Some?
    requires MergedAt(Replaced(f[0].kids, id, p).value, f[0].kids, FirstMatch(ValsF(f[0].kids), id).value, p)
    ensures Replaced(f, id, p).Some? && FirstMatch(ValsF(f), id).Some?
    ensures MergedAt(Replaced(f, id, p).value, f, FirstMatch(ValsF(f), id).value, p)
  {
    var t, rest := f[0], f[1..];
    var A, B := ValsF(t.kids), ValsF(rest);
    ValsFCons(f);
    FirstMatchCons(t.val, A, B, id);
    var k := Replaced(t.kids, id, p).value;
    var j := FirstMatch(A, id).value;
    var r := [Tree(t.val, k)] + rest;
    ValsFCons(r);
    assert r[1..] == rest;
    SameShapeRefl(rest);
    UpdateMiddle([t.val], A, B, j, Merge(A[j], p));
  }

  /** Neither the first root nor its subtree has the id: the later roots decide. */
  lemma {:induction false} ReplacedRest(f: Forest, id: string, p: Patch)
    requires f != [] && f[0].val.id != id
    requires Replaced(f[0].kids, id, p).None? && FirstMatch(ValsF(f[0].kids), id).None?
    requires Replaced(f[1..], id, p).None? <==> FirstMatch(ValsF(f[1..]), id).None?
    requires Replaced(f[1..], id, p).Some? ==> MergedAt(Replaced(f[1..], id, p).value, f[1..], FirstMatch(ValsF(f[1..]), id).value, p)
    ensures Replaced(f, id, p).None? <==> FirstMatch(ValsF(f), id).None?
    ensures Replaced(f, id, p).Some? ==> MergedAt(Replaced(f, id, p).value, f, FirstMatch(ValsF(f), id).value, p)
  {
    var t, rest := f[0], f[1..];
    var A, B := ValsF(t.kids), ValsF(rest);
    assert ValsF(f) == [t.val] + A + B by {
      ValsFCons(f);
    }
    assert FirstMatch(ValsF(f), id) == Shift(FirstMatch(B, id), 1 + |A|) by {
      FirstMatchCons(t.val, A, B, id);
    }
    var inRest := Replaced(rest, id, p);
    if inRest.Some? {
      var r := [t] + inRest.value;
      var j := FirstMatch(B, id).value;
      assert Replaced(f, id, p) == Some(r);
      assert ValsF(r) == [t.val] + A + ValsF(inRest.value) by {
        ValsFCons(r);
        assert r[0] == t && r[1..] == inRest.value;
      }
      assert SameShapeF(r, f) by {
        assert r[0] == t && r[1..] == inRest.value;
        SameShapeRefl(t.kids);
      }
      assert ([t.val] + A + B)[|[t.val] + A| + j := Merge(B[j], p)] == [t.val] + A + B[j := Merge(B[j], p)] by {
        UpdateMiddle([t.val] + A, B, [], j, Merge(B[j], p));
        assert [t.val] + A + B + [] == [t.val] + A + B;
        assert [t.val] + A + B[j := Merge(B[j], p)] + [] == [t.val] + A + B[j := Merge(B[j], p)];
      }
    }
  }

  /**
   * `findAndReplace` on the copy: scans the trees in order, merging into a tree's root
   * when it has the id and otherwise searching its children, and stops at the first hit.
   */
  method FindAndReplace(nodes: Forest, id: string, p: Patch) returns (found: bool, out: Forest)
    ensures found <==> Replaced(nodes, id, p).Some?
    ensures found ==> out == Replaced(nodes, id, p).value
    ensures !found ==> out == nodes
    decreases nodes
  {
    var i := 0;
    assert nodes[..0] == [] && nodes[0..] == nodes;
    WithinEmpty(Replaced(nodes, id, p));
    while i < |nodes|
      invariant i <= |nodes|
      invariant Replaced(nodes, id, p) == Within(nodes[..i], Replaced(nodes[i..], id, p))
    {
      var node := nodes[i];
      assert nodes[i..][0] == node && nodes[i..][1..] == nodes[i + 1..];
      if node.val.id == id {
        out := nodes[i := Tree(Merge(node.val, p), node.kids)];
        UpdateSplit(nodes, i, Tree(Merge(node.val, p), node.kids));
        return true, out;
      }
      var sub, kids := FindAndReplace(node.kids, id, p);
      if sub {
        out := nodes[i := Tree(node.val, kids)];
        UpdateSplit(nodes, i, Tree(node.val, kids));
        return true, out;
      }
      assert Replaced(nodes[i..], id, p) == Within([node], Replaced(nodes[i + 1..], id, p));
      WithinStep(nodes[..i], node, Replaced(nodes[i + 1..], id, p));
      assert nodes[..i + 1] == nodes[..i] + [node];
      i := i + 1;
    }
    assert nodes[i..] == [];
    return false, nodes;
  }

  // ---------------------------------------------------------------- adding a child

  /**
   * The forest with leaf `x` appended to the children of the first node (in pre-order)
   * whose id is `pid`.
   */
  function Added(f: Forest, pid: string, x: Info): Option<Forest>
    decreases f
  {
    if f == [] then None
    else if f[0].val.id == pid then Some([Tree(f[0].val, f[0].kids + [Leaf(x)])] + f[1..])
    else
      var inKids := Added(f[0].kids, pid, x);
      if inKids.Some? then Some([Tree(f[0].val, inKids.value)] + f[1..])
      else Within([f[0]], Added(f[1..], pid, x))
  }

  /** The parent of the roots of a forest numbered from `start` comes before them. */
  predicate Before(par: Option<nat>, start: nat) {
    par.None? || par.value < start
  }

  /** In the parent list P, position e has parent q and is the last position to have it. */
  predicate LastChildAt(P: seq<Option<nat>>, e: nat, q: nat) {
    e < |P| && P[e] == Some(q) && forall m :: e < m < |P| ==> P[m] != Some(q)
  }

  /**
   * `r` is `f` with `x` inserted at pre-order position e, right after the subtree of the
   * node at position j, as that node's last child (positions counted from `start`, the
   * roots' parent being `par`).
   */
  predicate AddedLast(r: Forest, f: Forest, j: nat, e: nat, x: Info, start: nat, par: Option<nat>) {
    && j < e <= |ValsF(f)|
    && ValsF(r) == ValsF(f)[..e] + [x] + ValsF(f)[e..]
    && LastChildAt(ParentsF(r, start, par), e, start + j)
  }

  lemma {:induction false} AddedNone(f: Forest, pid: string, x: Info)
    ensures Added(f, pid, x).None? <==> FirstMatch(ValsF(f), pid).None?
    decreases f
  {
    if f != [] {
      ValsFCons(f);
      FirstMatchCons(f[0].val, ValsF(f[0].kids), ValsF(f[1..]), pid);
      if f[0].val.id != pid {
        AddedNone(f[0].kids, pid, x);
        AddedNone(f[1..], pid, x);
      }
    }
  }

  /** The parents of a one-leaf forest. */
  lemma {:induction false} ParentsLeaf(x: Info, start: nat, par: Option<nat>)
    ensures ParentsF([Leaf(x)], start, par) == [par]
    ensures SizeF([Leaf(x)]) == 1 && ValsF([Leaf(x)]) == [x]
  {
    assert [Leaf(x)][1..] == [];
  }

  lemma {:induction false} Regroup<X>(a: seq<X>, b: seq<X>, c: seq<X>, d: seq<X>)
    ensures a + (b + c + d) == (a + b) + c + d
  {
    assert a + (b + c + d) == a + (b + (c + d));
    assert (a + b) + c + d == a + (b + (c + d));
  }

  /** Cutting a concatenation inside its right part. */
  lemma {:induction false} CutRight<X>(a: seq<X>, b: seq<X>, i: nat)
    requires i <= |b|
    ensures (a + b)[..|a| + i] == a + b[..i] && (a + b)[|a| + i..] == b[i..]
  {
  }

  /** Cutting a concatenation inside its middle part. */
  lemma {:induction false} CutMiddle<X>(a: seq<X>, b: seq<X>, c: seq<X>, i: nat)
    requires i <= |b|
    ensures (a + b + c)[..|a| + i] == a + b[..i] && (a + b + c)[|a| + i..] == b[i..] + c
  {
    assert a + b + c == a + (b + c);
    CutRight(a, b + c, i);
  }

  /** Everything after position e of P = pre + Q + R, with e inside Q, has parent q only inside Q. */
  lemma {:induction false} LastInMiddle(pre: seq<Option<nat>>, Q: seq<Option<nat>>, R: seq<Option<nat>>, e: nat, q: nat, lo: nat, par: Option<nat>)
    requires LastChildAt(Q, e, q)
    requires |R| > 0 ==> par.None? || par.value != q
    requires forall k :: 0 <= k < |R| ==> R[k] == par || (R[k].Some? && lo <= R[k].value)
    requires q < lo
    ensures LastChildAt(pre + Q + R, |pre| + e, q)
  {
    var P := pre + Q + R;
    forall m | |pre| + e < m < |P| ensures P[m] != Some(q) {
      if m < |pre| + |Q| {
        assert P[m] == Q[m - |pre|];
      } else {
        assert P[m] == R[m - |pre| - |Q|];
      }
    }
  }

  /** Values when the leaf is appended to the first root's children. */
  lemma {:induction false} HereVals(t: Node, rest: Forest, x: Info)
    ensures |ValsF([t] + rest)| == 1 + |ValsF(t.kids)| + |ValsF(rest)|
    ensures ValsF([Tree(t.val, t.kids + [Leaf(x)])] + rest)
      == ValsF([t] + rest)[..1 + |ValsF(t.kids)|] + [x] + ValsF([t] + rest)[1 + |ValsF(t.kids)|..]
  {
    var r := [Tree(t.val, t.kids + [Leaf(x)])] + rest;
    var f := [t] + rest;
    var a, b := ValsF(t.kids), ValsF(rest);
    assert ValsF(f) == [t.val] + a + b by {
      assert f[0] == t && f[1..] == rest;
      ValsFCons(f);
    }
    assert ValsF(r) == [t.val] + (a + [x]) + b by {
      assert r[0].kids == t.kids + [Leaf(x)] && r[1..] == rest;
      ValsFCons(r);
      ValsFAppend(t.kids, [Leaf(x)]);
      ParentsLeaf(x, 0, None);
    }
    CutMiddle([t.val], a, b, |a|);
    assert a[..|a|] == a && a[|a|..] == [];
    AppendAssoc([t.val], a, [x]);
  }

  /** Parents when the leaf is appended to the first root's children. */
  lemma {:induction false} HereParents(t: Node, rest: Forest, x: Info, start: nat, par: Option<nat>)
    requires Before(par, start)
    ensures LastChildAt(ParentsF([Tree(t.val, t.kids + [Leaf(x)])] + rest, start, par), 1 + |ValsF(t.kids)|, start)
  {
    var mid := start + Size(Tree(t.val, t.kids + [Leaf(x)]));
    var PK := ParentsF(t.kids, start + 1, Some(start));
    var PR := ParentsF(rest, mid, par);
    HereParentList(t, rest, x, start, par);
    ParentsFSize(t.kids, start + 1, Some(start));
    ValsFSize(t.kids);
    ParentsBefore(rest, mid, par);
    LastBeforeTail([par] + PK, PR, start, mid, par);
  }

  /** The parent list after appending the leaf: the old children's, then the root for the leaf, then the rest's. */
  lemma {:induction false} HereParentList(t: Node, rest: Forest, x: Info, start: nat, par: Option<nat>)
    ensures var r0 := Tree(t.val, t.kids + [Leaf(x)]);
      ParentsF([r0] + rest, start, par)
        == ([par] + ParentsF(t.kids, start + 1, Some(start))) + [Some(start)] + ParentsF(rest, start + Size(r0), par)
  {
    var r0 := Tree(t.val, t.kids + [Leaf(x)]);
    var r := [r0] + rest;
    var PK := ParentsF(t.kids, start + 1, Some(start));
    var PR := ParentsF(rest, start + Size(r0), par);
    assert r[0] == r0 && r[1..] == rest;
    assert ParentsF(t.kids + [Leaf(x)], start + 1, Some(start)) == PK + [Some(start)] by {
      ParentsLeaf(x, start + 1 + SizeF(t.kids), Some(start));
      ParentsFAppend(t.kids, [Leaf(x)], start + 1, Some(start));
    }
    ParentsFCons(r, start, par);
    assert [par] + (PK + [Some(start)]) + PR == [par] + PK + [Some(start)] + PR;
  }

  /** Position |pre| holds parent q and is its last child when every later parent is `par` or at least lo. */
  lemma {:induction false} LastBeforeTail(pre: seq<Option<nat>>, R: seq<Option<nat>>, q: nat, lo: nat, par: Option<nat>)
    requires Before(par, q) && q < lo
    requires forall k :: 0 <= k < |R| ==> R[k] == par || (R[k].Some? && lo <= R[k].value < lo + k)
    ensures LastChildAt(pre + [Some(q)] + R, |pre|, q)
  {
    assert LastChildAt([Some(q)], 0, q);
    LastInMiddle(pre, [Some(q)], R, 0, q, lo, par);
  }

  /** Values when the leaf goes into the first root's children, at position e there. */
  lemma {:induction false} KidsVals(t: Node, k: Forest, rest: Forest, x: Info, e: nat)
    requires e <= |ValsF(t.kids)| && ValsF(k) == ValsF(t.kids)[..e] + [x] + ValsF(t.kids)[e..]
    ensures |ValsF([t] + rest)| == 1 + |ValsF(t.kids)| + |ValsF(rest)|
    ensures ValsF([Tree(t.val, k)] + rest) == ValsF([t] + rest)[..1 + e] + [x] + ValsF([t] + rest)[1 + e..]
  {
    var r := [Tree(t.val, k)] + rest;
    var f := [t] + rest;
    assert r[1..] == rest && f[1..] == rest;
    ValsFCons(f);
    ValsFCons(r);
    var A := ValsF(t.kids);
    CutMiddle([t.val], A, ValsF(rest), e);
    assert ValsF(r) == ([t.val] + A[..e]) + [x] + (A[e..] + ValsF(rest));
  }

  /** Parents when the leaf goes into the first root's children, at position e there. */
  lemma {:induction false} KidsParents(v: Info, k: Forest, rest: Forest, e: nat, q: nat, start: nat, par: Option<nat>)
    requires LastChildAt(ParentsF(k, start + 1, Some(start)), e, q)
    requires start < q < start + 1 + SizeF(k) && Before(par, start)
    ensures LastChildAt(ParentsF([Tree(v, k)] + rest, start, par), 1 + e, q)
  {
    var r0 := Tree(v, k);
    var r := [r0] + rest;
    assert r[0] == r0 && r[1..] == rest;
    ParentsFCons(r, start, par);
    ParentsBefore(rest, start + Size(r0), par);
    LastInMiddle([par], ParentsF(k, start + 1, Some(start)), ParentsF(rest, start + Size(r0), par),
      e, q, start + Size(r0), par);
  }

  /** Values when the leaf goes into the later roots, at position e there. */
  lemma {:induction false} RestVals(t: Node, r': Forest, rest: Forest, x: Info, e: nat)
    requires e <= |ValsF(rest)| && ValsF(r') == ValsF(rest)[..e] + [x] + ValsF(rest)[e..]
    ensures |ValsF([t] + rest)| == 1 + |ValsF(t.kids)| + |ValsF(rest)|
    ensures ValsF([t] + r') == ValsF([t] + rest)[..1 + |ValsF(t.kids)| + e] + [x] + ValsF([t] + rest)[1 + |ValsF(t.kids)| + e..]
  {
    var r := [t] + r';
    var f := [t] + rest;
    assert r[0] == t && r[1..] == r' && f[1..] == rest;
    ValsFCons(f);
    ValsFCons(r);
    var B := ValsF(rest);
    var a := [t.val] + ValsF(t.kids);
    assert |a| == 1 + |ValsF(t.kids)|;
    assert ValsF(f) == a + B;
    CutRight(a, B, e);
    assert ValsF(r) == a + (B[..e] + [x] + B[e..]);
    Regroup(a, B[..e], [x], B[e..]);
  }

  /** Parents when the leaf goes into the later roots, at position e there. */
  lemma {:induction false} RestParents(t: Node, r': Forest, e: nat, q: nat, start: nat, par: Option<nat>)
    requires LastChildAt(ParentsF(r', start + Size(t), par), e, q)
    ensures LastChildAt(ParentsF([t] + r', start, par), 1 + |ValsF(t.kids)| + e, q)
  {
    var r := [t] + r';
    assert r[0] == t && r[1..] == r';
    ParentsFCons(r, start, par);
    ParentsFSize(t.kids, start + 1, Some(start));
    ValsFSize(t.kids);
    var PK := ParentsF(t.kids, start + 1, Some(start));
    var PR := ParentsF(r', start + Size(t), par);
    LastInMiddle([par] + PK, PR, [], e, q, q + 1, par);
    assert [par] + PK + PR + [] == [par] + PK + PR;
  }

  lemma {:induction false} AddedHereCase(f: Forest, pid: string, x: Info, start: nat, par: Option<nat>) returns (e: nat)
    requires f != [] && f[0].val.id == pid && Before(par, start)
    ensures Added(f, pid, x).Some? && FirstMatch(ValsF(f), pid) == Some(0)
    ensures AddedLast(Added(f, pid, x).value, f, 0, e, x, start, par)
  {
    var t, rest := f[0], f[1..];
    assert f == [t] + rest;
    ValsFCons(f);
    FirstMatchCons(t.val, ValsF(t.kids), ValsF(rest), pid);
    e := 1 + |ValsF(t.kids)|;
    HereVals(t, rest, x);
    HereParents(t, rest, x, start, par);
  }

  lemma {:induction false} AddedKidsCase(f: Forest, pid: string, x: Info, start: nat, par: Option<nat>) returns (j: nat, e: nat)
    requires f != [] && f[0].val.id != pid && Added(f[0].kids, pid, x).Some? && Before(par, start)
    ensures Added(f, pid, x).Some? && FirstMatch(ValsF(f), pid) == Some(j)
    ensures AddedLast(Added(f, pid, x).value, f, j, e, x, start, par)
    decreases f, 0
  {
    var t, rest := f[0], f[1..];
    var A, B := ValsF(t.kids), ValsF(rest);
    assert f == [t] + rest;
    ValsFCons(f);
    FirstMatchCons(t.val, A, B, pid);
    var k := Added(t.kids, pid, x).value;
    var e' := AddedAt(t.kids, pid, x, start + 1, Some(start));
    var j' := FirstMatch(A, pid).value;
    j, e := 1 + j', 1 + e';
    KidsLast(t, rest, k, j', e', x, start, par);
    assert Added(f, pid, x) == Some([Tree(t.val, k)] + rest);
  }

  /** Adding into the first root's children, as AddedLast states it for the whole forest. */
  lemma {:induction false} KidsLast(t: Node, rest: Forest, k: Forest, j: nat, e: nat, x: Info, start: nat, par: Option<nat>)
    requires AddedLast(k, t.kids, j, e, x, start + 1, Some(start)) && Before(par, start)
    ensures AddedLast([Tree(t.val, k)] + rest, [t] + rest, 1 + j, 1 + e, x, start, par)
  {
    ValsFSize(k);
    ValsFSize(t.kids);
    ParentsFSize(k, start + 1, Some(start));
    assert start + 1 + j == start + (1 + j);
    KidsVals(t, k, rest, x, e);
    KidsParents(t.val, k, rest, e, start + (1 + j), start, par);
  }

  lemma {:induction false} AddedRestCase(f: Forest, pid: string, x: Info, start: nat, par: Option<nat>) returns (j: nat, e: nat)
    requires f != [] && f[0].val.id != pid && Added(f[0].kids, pid, x).None?
    requires Added(f[1..], pid, x).Some? && Before(par, start)
    ensures Added(f, pid, x).Some? && FirstMatch(ValsF(f), pid) == Some(j)
    ensures AddedLast(Added(f, pid, x).value, f, j, e, x, start, par)
    decreases f, 0
  {
    var e'' := AddedAt(f[1..], pid, x, start + Size(f[0]), par);
    j, e := RestFinish(f, pid, x, start, par, e'');
  }

  /** The rest case once the later roots have taken the leaf at position e'' of their own listing. */
  lemma {:induction false} RestFinish(f: Forest, pid: string, x: Info, start: nat, par: Option<nat>, e'': nat) returns (j: nat, e: nat)
    requires f != [] && f[0].val.id != pid && Added(f[0].kids, pid, x).None? && Added(f[1..], pid, x).Some?
    requires FirstMatch(ValsF(f[1..]), pid).Some?
    requires AddedLast(Added(f[1..], pid, x).value, f[1..], FirstMatch(ValsF(f[1..]), pid).value, e'', x, start + Size(f[0]), par)
    ensures Added(f, pid, x).Some? && FirstMatch(ValsF(f), pid) == Some(j)
    ensures AddedLast(Added(f, pid, x).value, f, j, e, x, start, par)
  {
    var t, rest := f[0], f[1..];
    var r' := Added(rest, pid, x).value;
    var j'' := FirstMatch(ValsF(rest), pid).value;
    RestMatch(f, pid, x);
    assert Added(f, pid, x) == Some([t] + r');
    j, e := RestLast(f, Added(f, pid, x).value, t, rest, r', j'', e'', x, start, par);
  }

  /** When neither the first root nor its subtree has the id, the first match lies in the later roots. */
  lemma {:induction false} RestMatch(f: Forest, pid: string, x: Info)
    requires f != [] && f[0].val.id != pid && Added(f[0].kids, pid, x).None?
    requires FirstMatch(ValsF(f[1..]), pid).Some?
    ensures FirstMatch(ValsF(f), pid) == Some(1 + |ValsF(f[0].kids)| + FirstMatch(ValsF(f[1..]), pid).value)
  {
    ValsFCons(f);
    FirstMatchCons(f[0].val, ValsF(f[0].kids), ValsF(f[1..]), pid);
    AddedNone(f[0].kids, pid, x);
  }

  /** Adding into the later roots, as AddedLast states it for the whole forest. */
  lemma {:induction false} RestLast(f: Forest, r: Forest, t: Node, rest: Forest, r': Forest, j: nat, e: nat, x: Info, start: nat, par: Option<nat>)
    returns (j': nat, e': nat)
    requires f != [] && t == f[0] && rest == f[1..] && r == [t] + r'
    requires AddedLast(r', rest, j, e, x, start + Size(t), par)
    ensures j' == 1 + |ValsF(t.kids)| + j && e' == 1 + |ValsF(t.kids)| + e
    ensures AddedLast(r, f, j', e', x, start, par)
  {
    j', e' := 1 + |ValsF(t.kids)| + j, 1 + |ValsF(t.kids)| + e;
    assert f == [t] + rest;
    ValsFSize(t.kids);
    assert start + Size(t) + j == start + (1 + |ValsF(t.kids)| + j);
    RestVals(t, r', rest, x, e);
    RestParents(t, r', e, start + (1 + |ValsF(t.kids)| + j), start, par);
  }

  lemma {:induction false} AddedAt(f: Forest, pid: string, x: Info, start: nat, par: Option<nat>) returns (e: nat)
    requires Added(f, pid, x).Some? && Before(par, start)
    ensures FirstMatch(ValsF(f), pid).Some?
    ensures AddedLast(Added(f, pid, x).value, f, FirstMatch(ValsF(f), pid).value, e, x, start, par)
    decreases f, 1
  {
    if f[0].val.id == pid {
      e := AddedHereCase(f, pid, x, start, par);
    } else if Added(f[0].kids, pid, x).Some? {
      var j;
      j, e := AddedKidsCase(f, pid, x, start, par);
    } else {
      var j;
      j, e := AddedRestCase(f, pid, x, start, par);
    }
  }

  /**
   * Adding a child succeeds exactly when some node has the parent id. The new node then
   * hangs under the first such node in pre-order, as its last child: it comes right after
   * that node's subtree in pre-order, its parent is that node, and no later node has
   * that parent; every other node keeps its order, and the forest grows by one node.
   */
  lemma {:induction false} AddedSpec(f: Forest, pid: string, x: Info)
    ensures Added(f, pid, x).None? <==> FirstMatch(ValsF(f), pid).None?
    ensures Added(f, pid, x).Some? ==>
      && SizeF(Added(f, pid, x).value) == SizeF(f) + 1
      && exists e :: AddedLast(Added(f, pid, x).value, f, FirstMatch(ValsF(f), pid).value, e, x, 0, None)
  {
    AddedNone(f, pid, x);
    if Added(f, pid, x).Some? {
      var e := AddedAt(f, pid, x, 0, None);
      ValsFSize(f);
      ValsFSize(Added(f, pid, x).value);
    }
  }

  /**
   * `findAndAdd` on the copy: scans the trees in order, appending to a tree's root when
   * it has the id and otherwise searching its children, and stops at the first hit.
   */
  method FindAndAdd(nodes: Forest, pid: string, x: Info) returns (found: bool, out: Forest)
    ensures found <==> Added(nodes, pid, x).Some?
    ensures found ==> out == Added(nodes, pid, x).value
    ensures !found ==> out == nodes
    decreases nodes
  {
    var i := 0;
    assert nodes[..0] == [] && nodes[0..] == nodes;
    WithinEmpty(Added(nodes, pid, x));
    while i < |nodes|
      invariant i <= |nodes|
      invariant Added(nodes, pid, x) == Within(nodes[..i], Added(nodes[i..], pid, x))
    {
      var node := nodes[i];
      assert nodes[i..][0] == node && nodes[i..][1..] == nodes[i + 1..];
      if node.val.id == pid {
        out := nodes[i := Tree(node.val, node.kids + [Leaf(x)])];
        UpdateSplit(nodes, i, Tree(node.val, node.kids + [Leaf(x)]));
        return true, out;
      }
      var sub, kids := FindAndAdd(node.kids, pid, x);
      if sub {
        out := nodes[i := Tree(node.val, kids)];
        UpdateSplit(nodes, i, Tree(node.val, kids));
        return true, out;
      }
      assert Added(nodes[i..], pid, x) == Within([node], Added(nodes[i + 1..], pid, x));
      WithinStep(nodes[..i], node, Added(nodes[i + 1..], pid, x));
      assert nodes[..i + 1] == nodes[..i] + [node];
      i := i + 1;
    }
    assert nodes[i..] == [];
    return false, nodes;
  }

  // ---------------------------------------------------------------- deleting a subtree

  /** `findIndex` by id among the roots: the first root with the id, or -1. */
  function IndexOfId(f: Forest, id: string): (k: int)
    ensures -1 <= k < |f|
    ensures k >= 0 ==> f[k].val.id == id && forall q :: 0 <= q < k ==> f[q].val.id != id
    ensures k == -1 <==> forall q :: 0 <= q < |f| ==> f[q].val.id != id
    decreases |f|
  {
    if f == [] then -1
    else if f[0].val.id == id then 0
    else
      var k := IndexOfId(f[1..], id);
      assert forall q :: 1 <= q < |f| ==> f[q] == f[1..][q - 1];
      if k == -1 then -1 else k + 1
  }

  /**
   * The forest with a subtree whose root has the id cut out. The roots are searched
   * first, and the first root with the id goes; only when no root has it are the
   * roots' children searched, tree by tree.
   */
  function Deleted(f: Forest, id: string): Option<Forest>
    decreases f, 1
  {
    var k := IndexOfId(f, id);
    if k >= 0 then Some(f[..k] + f[k + 1..]) else DeletedBelow(f, id, 0)
  }

  /** The search below the roots, from the i-th tree on. */
  function DeletedBelow(f: Forest, id: string, i: nat): Option<Forest>
    requires i <= |f|
    decreases f, 0, |f| - i
  {
    if i == |f| then None
    else
      var inKids := Deleted(f[i].kids, id);
      if inKids.Some? then Some(f[i := Tree(f[i].val, inKids.value)])
      else DeletedBelow(f, id, i + 1)
  }

  lemma {:induction false} NoIdAppend(a: seq<Info>, b: seq<Info>, id: string)
    ensures NoId(a + b, id) <==> NoId(a, id) && NoId(b, id)
  {
    if NoId(a, id) && NoId(b, id) {
      forall k | 0 <= k < |a + b| ensures (a + b)[k].id != id {
        if k >= |a| {
          assert (a + b)[k] == b[k - |a|];
        }
      }
    }
    if NoId(a + b, id) {
      forall k | 0 <= k < |a| ensures a[k].id != id {
        assert (a + b)[k] == a[k];
      }
      forall k | 0 <= k < |b| ensures b[k].id != id {
        assert (a + b)[|a| + k] == b[k];
      }
    }
  }

  /** No tree from the i-th on has the id at its root or below. */
  predicate TreesClear(f: Forest, id: string, i: nat) {
    forall q :: i <= q < |f| ==> f[q].val.id != id && NoId(ValsF(f[q].kids), id)
  }

  /** No tree from the i-th on has the id below its root. */
  predicate KidsClear(f: Forest, id: string, i: nat) {
    forall q :: i <= q < |f| ==> NoId(ValsF(f[q].kids), id)
  }

  /** No node has the id exactly when no root has it and no root's descendant has it. */
  lemma {:induction false} NoIdRoots(f: Forest, id: string)
    ensures NoId(ValsF(f), id) <==> TreesClear(f, id, 0)
    decreases f
  {
    if f != [] {
      ValsFCons(f);
      NoIdAppend([f[0].val] + ValsF(f[0].kids), ValsF(f[1..]), id);
      NoIdAppend([f[0].val], ValsF(f[0].kids), id);
      assert [f[0].val][0] == f[0].val;
      assert NoId([f[0].val], id) <==> f[0].val.id != id;
      NoIdRoots(f[1..], id);
      assert TreesClear(f[1..], id, 0) <==> TreesClear(f, id, 1) by {
        assert forall q :: 1 <= q < |f| ==> f[q] == f[1..][q - 1];
      }
    }
  }

  lemma {:induction false} DeletedNone(f: Forest, id: string)
    ensures Deleted(f, id).None? <==> NoId(ValsF(f), id)
    decreases f, 1
  {
    NoIdRoots(f, id);
    if IndexOfId(f, id) < 0 {
      DeletedBelowNone(f, id, 0);
    }
  }

  lemma {:induction false} DeletedBelowNone(f: Forest, id: string, i: nat)
    requires i <= |f|
    ensures DeletedBelow(f, id, i).None? <==> KidsClear(f, id, i)
    decreases f, 0, |f| - i
  {
    if i < |f| {
      DeletedNone(f[i].kids, id);
      DeletedBelowNone(f, id, i + 1);
      assert KidsClear(f, id, i) <==> NoId(ValsF(f[i].kids), id) && KidsClear(f, id, i + 1);
    }
  }

  /** The subtree whose root is the node at pre-order position j. */
  function SubtreeAt<T>(f: seq<Tree<T>>, j: nat): Tree<T>
    requires j < SizeF(f)
    decreases f
  {
    if j == 0 then f[0]
    else if j < Size(f[0]) then SubtreeAt(f[0].kids, j - 1)
    else SubtreeAt(f[1..], j - Size(f[0]))
  }

  /** The forest with the subtree at pre-order position j cut out, everything else in place. */
  function RemoveAt<T>(f: seq<Tree<T>>, j: nat): seq<Tree<T>>
    requires j < SizeF(f)
    decreases f
  {
    if j == 0 then f[1..]
    else if j < Size(f[0]) then [Tree(f[0].val, RemoveAt(f[0].kids, j - 1))] + f[1..]
    else [f[0]] + RemoveAt(f[1..], j - Size(f[0]))
  }

  /** A parent index after a block of s positions ending at `cut` is taken out: later ones move down by s. */
  function Down(p: Option<nat>, cut: nat, s: nat): Option<nat>
    requires s <= cut
  {
    if p.Some? && p.value >= cut then Some(p.value - s) else p
  }

  /** `Down` applied to every entry of a parent list. */
  function Lower(ps: seq<Option<nat>>, cut: nat, s: nat): seq<Option<nat>>
    requires s <= cut
  {
    seq(|ps|, k requires 0 <= k < |ps| => Down(ps[k], cut, s))
  }

  /**
   * `r` is `f` without the subtree of the node at pre-order position j, whose id is `id`:
   * that subtree is the block of positions [j, j + s) of `f`'s listing, the other nodes keep
   * their order, and their parents are those in `f`, the indices after the block moved down by s.
   */
  predicate Removes(r: Forest, f: Forest, j: nat, id: string) {
    && j < SizeF(f)
    && var t := SubtreeAt(f, j);
       var s := Size(t);
       && t.val.id == id
       && j + s <= |ValsF(f)| && j + s <= |Parents(f)|
       && Vals(t) == ValsF(f)[j..j + s]
       && ValsF(r) == ValsF(f)[..j] + ValsF(f)[j + s..]
       && Parents(r) == Parents(f)[..j] + Lower(Parents(f)[j + s..], j + s, s)
  }

  lemma {:induction false} RemoveAtSize<T>(f: seq<Tree<T>>, j: nat)
    requires j < SizeF(f)
    ensures j + Size(SubtreeAt(f, j)) <= SizeF(f)
    ensures SizeF(RemoveAt(f, j)) == SizeF(f) - Size(SubtreeAt(f, j))
    decreases f
  {
    var t, rest := f[0], f[1..];
    if j == 0 {
    } else if j < Size(t) {
      RemoveAtSize(t.kids, j - 1);
      var u := Tree(t.val, RemoveAt(t.kids, j - 1));
      var g := [u] + rest;
      assert g[0] == u && g[1..] == rest;
    } else {
      RemoveAtSize(rest, j - Size(t));
      var g := [t] + RemoveAt(rest, j - Size(t));
      assert g[0] == t && g[1..] == RemoveAt(rest, j - Size(t));
    }
  }

  /** Slices of A + K + B around a block inside K. */
  lemma {:induction false} SliceIn<X>(G: seq<X>, A: seq<X>, K: seq<X>, B: seq<X>, i: nat, s: nat)
    requires G == A + K + B && i + s <= |K|
    ensures G[..|A| + i] == A + K[..i]
    ensures G[|A| + i..|A| + i + s] == K[i..i + s]
    ensures G[|A| + i + s..] == K[i + s..] + B
  {
  }

  /** In the listing, the subtree at position j is the block [j, j + s), and cutting it out cuts that block. */
  lemma {:induction false} RemoveAtVals<T>(f: seq<Tree<T>>, j: nat, s: nat)
    requires j < SizeF(f) && s == Size(SubtreeAt(f, j))
    ensures j + s <= |ValsF(f)|
    ensures Vals(SubtreeAt(f, j)) == ValsF(f)[j..j + s]
    ensures ValsF(RemoveAt(f, j)) == ValsF(f)[..j] + ValsF(f)[j + s..]
    decreases f, 1
  {
    if j == 0 {
      RootCutVals(f, j, s, RemoveAt(f, j));
    } else if j < Size(f[0]) {
      KidsBranchVals(f, j, s);
    } else {
      RestBranchVals(f, j, s);
    }
  }

  lemma {:induction false} KidsBranchVals<T>(f: seq<Tree<T>>, j: nat, s: nat)
    requires j < SizeF(f) && s == Size(SubtreeAt(f, j)) && 0 < j < Size(f[0])
    ensures j + s <= |ValsF(f)|
    ensures Vals(SubtreeAt(f, j)) == ValsF(f)[j..j + s]
    ensures ValsF(RemoveAt(f, j)) == ValsF(f)[..j] + ValsF(f)[j + s..]
    decreases f, 0
  {
    var t, rest := f[0], f[1..];
    var r := RemoveAt(f, j);
    var i := j - 1;
    assert SubtreeAt(f, j) == SubtreeAt(t.kids, i);
    assert r == [Tree(t.val, RemoveAt(t.kids, i))] + rest;
    RemoveAtVals(t.kids, i, s);
    KidsCutVals(f, i, j, s, r);
  }

  lemma {:induction false} RestBranchVals<T>(f: seq<Tree<T>>, j: nat, s: nat)
    requires j < SizeF(f) && s == Size(SubtreeAt(f, j)) && f != [] && Size(f[0]) <= j
    ensures j + s <= |ValsF(f)|
    ensures Vals(SubtreeAt(f, j)) == ValsF(f)[j..j + s]
    ensures ValsF(RemoveAt(f, j)) == ValsF(f)[..j] + ValsF(f)[j + s..]
    decreases f, 0
  {
    var t, rest := f[0], f[1..];
    var r := RemoveAt(f, j);
    var i := j - Size(t);
    assert SubtreeAt(f, j) == SubtreeAt(rest, i);
    assert r == [t] + RemoveAt(rest, i);
    RemoveAtVals(rest, i, s);
    RestCutVals(f, i, j, s, r);
  }

  lemma {:induction false} RootCutVals<T>(f: seq<Tree<T>>, j: nat, s: nat, r: seq<Tree<T>>)
    requires f != [] && j == 0 && s == Size(f[0]) && r == f[1..]
    ensures j + s <= |ValsF(f)|
    ensures Vals(f[0]) == ValsF(f)[j..j + s]
    ensures ValsF(r) == ValsF(f)[..j] + ValsF(f)[j + s..]
  {
    ValsFSize(f[0].kids);
    assert ValsF(f) == [] + Vals(f[0]) + ValsF(r);
    CutBlock(ValsF(f), [], Vals(f[0]), ValsF(r), ValsF(r), 0, 0, s);
  }

  /** Cutting a block out of the middle part K of A + K + B. */
  lemma {:induction false} CutBlock<X>(G: seq<X>, A: seq<X>, K: seq<X>, B: seq<X>, R: seq<X>, i: nat, at: nat, s: nat)
    requires G == A + K + B && i + s <= |K| && at == |A| + i
    requires R == A + (K[..i] + K[i + s..]) + B
    ensures at + s <= |G|
    ensures G[at..at + s] == K[i..i + s]
    ensures R == G[..at] + G[at + s..]
  {
    SliceIn(G, A, K, B, i, s);
    AppendAssoc(A, K[..i], K[i + s..] + B);
  }

  lemma {:induction false} KidsCutVals<T>(f: seq<Tree<T>>, i: nat, j: nat, s: nat, r: seq<Tree<T>>)
    requires f != [] && i < SizeF(f[0].kids) && j == i + 1
    requires r == [Tree(f[0].val, RemoveAt(f[0].kids, i))] + f[1..]
    requires i + s <= |ValsF(f[0].kids)|
    requires ValsF(RemoveAt(f[0].kids, i)) == ValsF(f[0].kids)[..i] + ValsF(f[0].kids)[i + s..]
    ensures j + s <= |ValsF(f)|
    ensures ValsF(f)[j..j + s] == ValsF(f[0].kids)[i..i + s]
    ensures ValsF(r) == ValsF(f)[..j] + ValsF(f)[j + s..]
  {
    ValsFCons(f);
    KidsRemovedVals(f[0], f[1..], i, r);
    CutBlock(ValsF(f), [f[0].val], ValsF(f[0].kids), ValsF(f[1..]), ValsF(r), i, j, s);
  }

  lemma {:induction false} RestCutVals<T>(f: seq<Tree<T>>, i: nat, j: nat, s: nat, r: seq<Tree<T>>)
    requires f != [] && i < SizeF(f[1..]) && j == Size(f[0]) + i
    requires r == [f[0]] + RemoveAt(f[1..], i)
    requires i + s <= |ValsF(f[1..])|
    requires ValsF(RemoveAt(f[1..], i)) == ValsF(f[1..])[..i] + ValsF(f[1..])[i + s..]
    ensures j + s <= |ValsF(f)|
    ensures ValsF(f)[j..j + s] == ValsF(f[1..])[i..i + s]
    ensures ValsF(r) == ValsF(f)[..j] + ValsF(f)[j + s..]
  {
    ValsFSize(f[0].kids);
    assert ValsF(f) == Vals(f[0]) + ValsF(f[1..]) + [];
    assert ValsF(r) == Vals(f[0]) + ValsF(RemoveAt(f[1..], i)) + [] by {
      assert r[0] == f[0] && r[1..] == RemoveAt(f[1..], i);
    }
    CutBlock(ValsF(f), Vals(f[0]), ValsF(f[1..]), [], ValsF(r), i, j, s);
  }

  lemma {:induction false} KidsRemovedVals<T>(t: Tree<T>, rest: seq<Tree<T>>, i: nat, r: seq<Tree<T>>)
    requires i < SizeF(t.kids) && r == [Tree(t.val, RemoveAt(t.kids, i))] + rest
    ensures ValsF(r) == [t.val] + ValsF(RemoveAt(t.kids, i)) + ValsF(rest)
  {
    assert r[0] == Tree(t.val, RemoveAt(t.kids, i)) && r[1..] == rest;
  }

  lemma {:induction false} LowerAppend(a: seq<Option<nat>>, b: seq<Option<nat>>, cut: nat, s: nat)
    requires s <= cut
    ensures Lower(a + b, cut, s) == Lower(a, cut, s) + Lower(b, cut, s)
  {
  }

  /** Cutting a block out of K in A + K + B, the parents after it moving down. */
  lemma {:induction false} LowerBlock(G: seq<Option<nat>>, A: seq<Option<nat>>, K: seq<Option<nat>>, B: seq<Option<nat>>,
                                      R: seq<Option<nat>>, i: nat, at: nat, s: nat, cut: nat)
    requires G == A + K + B && i + s <= |K| && at == |A| + i && s <= cut
    requires R == A + (K[..i] + Lower(K[i + s..], cut, s)) + Lower(B, cut, s)
    ensures at + s <= |G|
    ensures R == G[..at] + Lower(G[at + s..], cut, s)
  {
    SliceIn(G, A, K, B, i, s);
    LowerAppend(K[i + s..], B, cut, s);
    var L1, L2 := Lower(K[i + s..], cut, s), Lower(B, cut, s);
    assert R == (A + K[..i]) + (L1 + L2) by {
      AppendAssoc(A, K[..i], L1);
      AppendAssoc(A + K[..i], L1, L2);
    }
  }

  /** Cutting a block out of the tail K of A + K, the parents after it moving down. */
  lemma {:induction false} LowerTail(G: seq<Option<nat>>, A: seq<Option<nat>>, K: seq<Option<nat>>,
                                     R: seq<Option<nat>>, i: nat, at: nat, s: nat, cut: nat)
    requires G == A + K && i + s <= |K| && at == |A| + i && s <= cut
    requires R == A + (K[..i] + Lower(K[i + s..], cut, s))
    ensures at + s <= |G|
    ensures R == G[..at] + Lower(G[at + s..], cut, s)
  {
    assert G[..at] == A + K[..i] && G[at + s..] == K[i + s..];
    AppendAssoc(A, K[..i], Lower(K[i + s..], cut, s));
  }

  /** The parents of a forest numbered from b, moved down by s, are those of the same forest numbered from b2 = b - s. */
  lemma {:induction false} ParentsLower<T>(g: seq<Tree<T>>, b: nat, b2: nat, q: Option<nat>, q2: Option<nat>, cut: nat, s: nat)
    requires s <= cut <= b && b == b2 + s && q2 == Down(q, cut, s)
    ensures Lower(ParentsF(g, b, q), cut, s) == ParentsF(g, b2, q2)
    decreases g
  {
    if g != [] {
      var K := ParentsF(g[0].kids, b + 1, Some(b));
      var R := ParentsF(g[1..], b + Size(g[0]), q);
      ParentsLower(g[0].kids, b + 1, b2 + 1, Some(b), Some(b2), cut, s);
      ParentsLower(g[1..], b + Size(g[0]), b2 + Size(g[0]), q, q2, cut, s);
      ParentsFCons(g, b, q);
      ParentsFCons(g, b2, q2);
      LowerJoin(q, K, R, cut, s);
    }
  }

  /** Moving a parent list [q] + K + R down is moving each part down. */
  lemma {:induction false} LowerJoin(q: Option<nat>, K: seq<Option<nat>>, R: seq<Option<nat>>, cut: nat, s: nat)
    requires s <= cut
    ensures Lower([q] + K + R, cut, s) == [Down(q, cut, s)] + Lower(K, cut, s) + Lower(R, cut, s)
  {
    LowerAppend([q] + K, R, cut, s);
    LowerAppend([q], K, cut, s);
    assert Lower([q], cut, s) == [Down(q, cut, s)] by {
      assert [q][1..] == [];
    }
  }

  /**
   * Cutting out the subtree at position j cuts its block out of the parent list; the
   * parents of the nodes after it that lie after the block move down by its size.
   */
  lemma {:induction false} RemoveAtParents<T>(f: seq<Tree<T>>, j: nat, s: nat, start: nat, par: Option<nat>)
    requires j < SizeF(f) && s == Size(SubtreeAt(f, j)) && Before(par, start)
    ensures j + s <= |ParentsF(f, start, par)|
    ensures ParentsF(RemoveAt(f, j), start, par) ==
      ParentsF(f, start, par)[..j] + Lower(ParentsF(f, start, par)[j + s..], start + j + s, s)
    decreases f, 1
  {
    if j == 0 {
      RootCutParents(f, f[0], f[1..], j, s, RemoveAt(f, j), start, par);
    } else if j < Size(f[0]) {
      KidsBranchParents(f, j, s, start, par);
    } else {
      RestBranchParents(f, j, s, start, par);
    }
  }

  lemma {:induction false} KidsBranchParents<T>(f: seq<Tree<T>>, j: nat, s: nat, start: nat, par: Option<nat>)
    requires j < SizeF(f) && s == Size(SubtreeAt(f, j)) && Before(par, start) && 0 < j < Size(f[0])
    ensures j + s <= |ParentsF(f, start, par)|
    ensures ParentsF(RemoveAt(f, j), start, par) ==
      ParentsF(f, start, par)[..j] + Lower(ParentsF(f, start, par)[j + s..], start + j + s, s)
    decreases f, 0
  {
    var t, rest := f[0], f[1..];
    var r := RemoveAt(f, j);
    var i := j - 1;
    assert s == Size(SubtreeAt(t.kids, i));
    assert r == [Tree(t.val, RemoveAt(t.kids, i))] + rest;
    RemoveAtSize(t.kids, i);
    RemoveAtParents(t.kids, i, s, start + 1, Some(start));
    assert start + 1 + i + s == start + j + s;
    KidsCutParents(f, i, j, s, r, start, par);
    KidsJoinParents(f, i, j, s, r, start, par);
  }

  lemma {:induction false} RestBranchParents<T>(f: seq<Tree<T>>, j: nat, s: nat, start: nat, par: Option<nat>)
    requires j < SizeF(f) && s == Size(SubtreeAt(f, j)) && Before(par, start) && f != [] && Size(f[0]) <= j
    ensures j + s <= |ParentsF(f, start, par)|
    ensures ParentsF(RemoveAt(f, j), start, par) ==
      ParentsF(f, start, par)[..j] + Lower(ParentsF(f, start, par)[j + s..], start + j + s, s)
    decreases f, 0
  {
    var i, b := j - Size(f[0]), start + Size(f[0]);
    RemoveAtLater(f, j, i);
    RemoveAtParents(f[1..], i, s, b, par);
    RestRemovedParents(f[0], f[1..], i, RemoveAt(f, j), start, b, par);
    RestCutParents(f, i, j, s, RemoveAt(f, j), start, b, par);
  }

  lemma {:induction false} RootCutParents<T>(f: seq<Tree<T>>, t: Tree<T>, rest: seq<Tree<T>>, j: nat, s: nat, r: seq<Tree<T>>,
                                             start: nat, par: Option<nat>)
    requires f != [] && t == f[0] && rest == f[1..] && Before(par, start) && j == 0 && s == Size(t) && r == rest
    ensures j + s <= |ParentsF(f, start, par)|
    ensures ParentsF(r, start, par) ==
      ParentsF(f, start, par)[..j] + Lower(ParentsF(f, start, par)[j + s..], start + j + s, s)
  {
    var PK := ParentsF(t.kids, start + 1, Some(start));
    var PR := ParentsF(rest, start + Size(t), par);
    ParentsFSize(t.kids, start + 1, Some(start));
    assert ParentsF(f, start, par) == [par] + PK + PR;
    assert ParentsF(f, start, par)[Size(t)..] == PR;
    ParentsLower(rest, start + Size(t), start, par, par, start + Size(t), Size(t));
  }

  /** The kids case in terms of the old parts: the cut inside the first tree's children. */
  lemma {:induction false} KidsCutParents<T>(f: seq<Tree<T>>, i: nat, j: nat, s: nat, r: seq<Tree<T>>, start: nat, par: Option<nat>)
    requires f != [] && Before(par, start) && i < SizeF(f[0].kids) && j == i + 1
    requires r == [Tree(f[0].val, RemoveAt(f[0].kids, i))] + f[1..]
    requires i + s <= |ParentsF(f[0].kids, start + 1, Some(start))|
    requires ParentsF(RemoveAt(f[0].kids, i), start + 1, Some(start)) ==
      ParentsF(f[0].kids, start + 1, Some(start))[..i] +
      Lower(ParentsF(f[0].kids, start + 1, Some(start))[i + s..], start + j + s, s)
    requires SizeF(RemoveAt(f[0].kids, i)) == SizeF(f[0].kids) - s
    ensures ParentsF(r, start, par) ==
      [par] +
      (ParentsF(f[0].kids, start + 1, Some(start))[..i] +
       Lower(ParentsF(f[0].kids, start + 1, Some(start))[i + s..], start + j + s, s)) +
      Lower(ParentsF(f[1..], start + Size(f[0]), par), start + j + s, s)
  {
    var t, rest := f[0], f[1..];
    ParentsFSize(t.kids, start + 1, Some(start));
    var b := start + Size(t);
    KidsRemovedParents(t, rest, i, s, r, start, par);
    LowerRest(rest, b, par, start + j + s, s);
  }

  /** The kids case joined up: the block starts one past the first root. */
  lemma {:induction false} KidsJoinParents<T>(f: seq<Tree<T>>, i: nat, j: nat, s: nat, r: seq<Tree<T>>, start: nat, par: Option<nat>)
    requires f != [] && j == i + 1
    requires i + s <= |ParentsF(f[0].kids, start + 1, Some(start))|
    requires ParentsF(r, start, par) ==
      [par] +
      (ParentsF(f[0].kids, start + 1, Some(start))[..i] +
       Lower(ParentsF(f[0].kids, start + 1, Some(start))[i + s..], start + j + s, s)) +
      Lower(ParentsF(f[1..], start + Size(f[0]), par), start + j + s, s)
    ensures j + s <= |ParentsF(f, start, par)|
    ensures ParentsF(r, start, par) ==
      ParentsF(f, start, par)[..j] + Lower(ParentsF(f, start, par)[j + s..], start + j + s, s)
  {
    ParentsFCons(f, start, par);
    LowerBlock(ParentsF(f, start, par), [par], ParentsF(f[0].kids, start + 1, Some(start)),
               ParentsF(f[1..], start + Size(f[0]), par), ParentsF(r, start, par), i, j, s, start + j + s);
  }

  lemma {:induction false} KidsRemovedParents<T>(t: Tree<T>, rest: seq<Tree<T>>, i: nat, s: nat, r: seq<Tree<T>>, start: nat, par: Option<nat>)
    requires i < SizeF(t.kids) && SizeF(RemoveAt(t.kids, i)) == SizeF(t.kids) - s
    requires r == [Tree(t.val, RemoveAt(t.kids, i))] + rest
    ensures Size(t) >= s
    ensures ParentsF(r, start, par) ==
      [par] + ParentsF(RemoveAt(t.kids, i), start + 1, Some(start)) + ParentsF(rest, start + Size(t) - s, par)
  {
    var u := Tree(t.val, RemoveAt(t.kids, i));
    assert r[0] == u && r[1..] == rest;
    ParentsFCons(r, start, par);
  }

  /** Moving the parents of a later forest down by s: the roots' parent lies before the cut. */
  lemma {:induction false} LowerRest<T>(rest: seq<Tree<T>>, b: nat, par: Option<nat>, cut: nat, s: nat)
    requires s <= cut <= b && Before(par, cut)
    ensures Lower(ParentsF(rest, b, par), cut, s) == ParentsF(rest, b - s, par)
  {
    ParentsLower(rest, b, b - s, par, par, cut, s);
  }

  /** A position past the first tree lies in the later trees, at that position less the first tree's size. */
  lemma {:induction false} RemoveAtLater<T>(f: seq<Tree<T>>, j: nat, i: nat)
    requires j < SizeF(f) && f != [] && Size(f[0]) <= j && i == j - Size(f[0])
    ensures i < SizeF(f[1..])
    ensures SubtreeAt(f, j) == SubtreeAt(f[1..], i)
    ensures RemoveAt(f, j) == [f[0]] + RemoveAt(f[1..], i)
  {
  }

  /** The rest case in terms of the old parts: the first tree kept, the cut in the later ones from b on. */
  lemma {:induction false} RestRemovedParents<T>(t: Tree<T>, rest: seq<Tree<T>>, i: nat, r: seq<Tree<T>>, start: nat, b: nat, par: Option<nat>)
    requires i < SizeF(rest) && r == [t] + RemoveAt(rest, i) && b == start + Size(t)
    ensures ParentsF(r, start, par) ==
      [par] + ParentsF(t.kids, start + 1, Some(start)) + ParentsF(RemoveAt(rest, i), b, par)
  {
    assert r[0] == t && r[1..] == RemoveAt(rest, i);
    ParentsFCons(r, start, par);
  }

  /** The rest case joined up: the block starts Size(f[0]) further on. */
  lemma {:induction false} RestCutParents<T>(f: seq<Tree<T>>, i: nat, j: nat, s: nat, r: seq<Tree<T>>, start: nat, b: nat, par: Option<nat>)
    requires f != [] && Before(par, start) && b == start + Size(f[0]) && j == Size(f[0]) + i && i < SizeF(f[1..])
    requires i + s <= |ParentsF(f[1..], b, par)|
    requires ParentsF(RemoveAt(f[1..], i), b, par) ==
      ParentsF(f[1..], b, par)[..i] + Lower(ParentsF(f[1..], b, par)[i + s..], b + i + s, s)
    requires ParentsF(r, start, par) ==
      [par] + ParentsF(f[0].kids, start + 1, Some(start)) + ParentsF(RemoveAt(f[1..], i), b, par)
    ensures j + s <= |ParentsF(f, start, par)|
    ensures ParentsF(r, start, par) ==
      ParentsF(f, start, par)[..j] + Lower(ParentsF(f, start, par)[j + s..], start + j + s, s)
  {
    ParentsFSize(f[0].kids, start + 1, Some(start));
    ParentsFCons(f, start, par);
    LowerTail(ParentsF(f, start, par), [par] + ParentsF(f[0].kids, start + 1, Some(start)), ParentsF(f[1..], b, par),
              ParentsF(r, start, par), i, j, s, b + i + s);
  }

  /**
   * The pre-order position of the node `deleteNode` removes: the first root with the id
   * when there is one, and otherwise, in the first tree whose descendants hold the id,
   * the position its children's search finds.
   */
  function DeletePos(f: Forest, id: string): Option<nat>
    decreases f, 1
  {
    var k := IndexOfId(f, id);
    if k >= 0 then Some(SizeF(f[..k])) else DeletePosBelow(f, id, 0)
  }

  /** The search below the roots, from the i-th tree on. */
  function DeletePosBelow(f: Forest, id: string, i: nat): Option<nat>
    requires i <= |f|
    decreases f, 0, |f| - i
  {
    if i == |f| then None
    else
      var p := DeletePos(f[i].kids, id);
      if p.Some? then Some(SizeF(f[..i]) + 1 + p.value) else DeletePosBelow(f, id, i + 1)
  }

  /** Root k is the subtree at the position after the trees before it; cutting it there splices it out. */
  lemma {:induction false} RootAt<T>(f: seq<Tree<T>>, k: nat)
    requires k < |f|
    ensures SizeF(f[..k]) < SizeF(f)
    ensures SubtreeAt(f, SizeF(f[..k])) == f[k]
    ensures RemoveAt(f, SizeF(f[..k])) == f[..k] + f[k + 1..]
    decreases k
  {
    var rest := f[1..];
    if k == 0 {
      assert f[..0] == [];
      assert f[..0] + f[1..] == rest;
    } else {
      RootAt(rest, k - 1);
      var pre := f[..k];
      assert pre[0] == f[0] && pre[1..] == rest[..k - 1];
      assert SizeF(pre) == Size(f[0]) + SizeF(rest[..k - 1]);
      assert f[..k] + f[k + 1..] == [f[0]] + (rest[..k - 1] + rest[k..]);
    }
  }

  /** Position p among tree i's descendants is position SizeF(f[..i]) + 1 + p of the forest. */
  lemma {:induction false} ChildAt<T>(f: seq<Tree<T>>, i: nat, p: nat)
    requires i < |f| && p < SizeF(f[i].kids)
    ensures SizeF(f[..i]) + 1 + p < SizeF(f)
    ensures SubtreeAt(f, SizeF(f[..i]) + 1 + p) == SubtreeAt(f[i].kids, p)
    ensures RemoveAt(f, SizeF(f[..i]) + 1 + p) == f[i := Tree(f[i].val, RemoveAt(f[i].kids, p))]
    decreases i
  {
    var rest := f[1..];
    if i == 0 {
      assert f[..0] == [];
      assert [Tree(f[0].val, RemoveAt(f[0].kids, p))] + rest == f[0 := Tree(f[0].val, RemoveAt(f[0].kids, p))];
    } else {
      ChildAt(rest, i - 1, p);
      var pre := f[..i];
      assert pre[0] == f[0] && pre[1..] == rest[..i - 1];
      assert SizeF(pre) == Size(f[0]) + SizeF(rest[..i - 1]);
      assert rest[i - 1] == f[i];
      assert [f[0]] + rest[i - 1 := Tree(f[i].val, RemoveAt(f[i].kids, p))] == f[i := Tree(f[i].val, RemoveAt(f[i].kids, p))];
    }
  }

  /** `Deleted` cuts out the subtree at `DeletePos`, whose root has the id. */
  lemma {:induction false} DeletedAt(f: Forest, id: string)
    ensures Deleted(f, id).Some? <==> DeletePos(f, id).Some?
    ensures DeletePos(f, id).Some? ==>
      && DeletePos(f, id).value < SizeF(f)
      && SubtreeAt(f, DeletePos(f, id).value).val.id == id
      && Deleted(f, id).value == RemoveAt(f, DeletePos(f, id).value)
    decreases f, 1
  {
    var k := IndexOfId(f, id);
    if k >= 0 {
      RootAt(f, k);
    } else {
      DeletedBelowAt(f, id, 0);
    }
  }

  lemma {:induction false} DeletedBelowAt(f: Forest, id: string, i: nat)
    requires i <= |f|
    ensures DeletedBelow(f, id, i).Some? <==> DeletePosBelow(f, id, i).Some?
    ensures DeletePosBelow(f, id, i).Some? ==>
      && DeletePosBelow(f, id, i).value < SizeF(f)
      && SubtreeAt(f, DeletePosBelow(f, id, i).value).val.id == id
      && DeletedBelow(f, id, i).value == RemoveAt(f, DeletePosBelow(f, id, i).value)
    decreases f, 0, |f| - i
  {
    if i < |f| {
      var p, d := DeletePos(f[i].kids, id), Deleted(f[i].kids, id);
      DeletedAt(f[i].kids, id);
      if p.Some? {
        var j := SizeF(f[..i]) + 1 + p.value;
        assert DeletePosBelow(f, id, i) == Some(j);
        assert DeletedBelow(f, id, i) == Some(f[i := Tree(f[i].val, d.value)]);
        ChildAt(f, i, p.value);
      } else {
        assert DeletePosBelow(f, id, i) == DeletePosBelow(f, id, i + 1);
        assert DeletedBelow(f, id, i) == DeletedBelow(f, id, i + 1);
        DeletedBelowAt(f, id, i + 1);
      }
    }
  }

  /** No tree before the m-th has the id below its root. */
  predicate KidsClearBefore(f: Forest, id: string, m: nat) {
    m <= |f| && forall q :: 0 <= q < m ==> NoId(ValsF(f[q].kids), id)
  }

  /**
   * The search order of `deleteNode`: a root with the id is preferred to any deeper node,
   * the first such root going; otherwise the node removed lies in the first tree whose
   * descendants hold the id, at the position the search of that tree's children finds.
   */
  lemma {:induction false} DeletePosOrder(f: Forest, id: string) returns (m: nat)
    requires !NoId(ValsF(f), id)
    ensures DeletePos(f, id).Some? && DeletePos(f, id).value < SizeF(f)
    ensures IndexOfId(f, id) >= 0 ==> SubtreeAt(f, DeletePos(f, id).value) == f[IndexOfId(f, id)]
    ensures IndexOfId(f, id) < 0 ==>
      && m < |f| && KidsClearBefore(f, id, m) && !NoId(ValsF(f[m].kids), id)
      && DeletePos(f[m].kids, id).Some?
      && DeletePos(f, id) == Some(SizeF(f[..m]) + 1 + DeletePos(f[m].kids, id).value)
  {
    DeletedNone(f, id);
    DeletedAt(f, id);
    var k := IndexOfId(f, id);
    m := 0;
    if k >= 0 {
      RootAt(f, k);
    } else {
      m := BelowFirst(f, id, 0);
    }
  }

  lemma {:induction false} BelowFirst(f: Forest, id: string, i: nat) returns (m: nat)
    requires KidsClearBefore(f, id, i) && DeletePosBelow(f, id, i).Some?
    ensures i <= m < |f| && KidsClearBefore(f, id, m) && !NoId(ValsF(f[m].kids), id)
    ensures DeletePos(f[m].kids, id).Some?
    ensures DeletePosBelow(f, id, i) == Some(SizeF(f[..m]) + 1 + DeletePos(f[m].kids, id).value)
    decreases |f| - i
  {
    assert i < |f|;
    var p := DeletePos(f[i].kids, id);
    assert DeletePosBelow(f, id, i) == if p.Some? then Some(SizeF(f[..i]) + 1 + p.value) else DeletePosBelow(f, id, i + 1);
    DeletePosNone(f[i].kids, id);
    if p.Some? {
      m := i;
    } else {
      assert KidsClearBefore(f, id, i + 1);
      m := BelowFirst(f, id, i + 1);
    }
  }

  /** The search finds no position exactly when no node has the id. */
  lemma {:induction false} DeletePosNone(f: Forest, id: string)
    ensures DeletePos(f, id).None? <==> NoId(ValsF(f), id)
  {
    DeletedNone(f, id);
    DeletedAt(f, id);
  }

  /**
   * Deleting succeeds exactly when some node has the id, and then removes the whole
   * subtree of the node `DeletePos` finds, whose id it is: the forest's listing loses
   * exactly that subtree's block, and every other node keeps its parent, renumbered.
   */
  lemma {:induction false} DeletedSpec(f: Forest, id: string)
    ensures Deleted(f, id).None? <==> NoId(ValsF(f), id)
    ensures Deleted(f, id).Some? ==> DeletePos(f, id).Some? && Removes(Deleted(f, id).value, f, DeletePos(f, id).value, id)
  {
    DeletedNone(f, id);
    DeletedAt(f, id);
    if Deleted(f, id).Some? {
      RemovesAt(f, DeletePos(f, id).value, id);
    }
  }

  /** Cutting out the subtree at position j, whose root has the id, is a removal in the sense of `Removes`. */
  lemma {:induction false} RemovesAt(f: Forest, j: nat, id: string)
    requires j < SizeF(f) && SubtreeAt(f, j).val.id == id
    ensures Removes(RemoveAt(f, j), f, j, id)
  {
    var s := Size(SubtreeAt(f, j));
    RemoveAtVals(f, j, s);
    RemoveAtParents(f, j, s, 0, None);
    assert 0 + j + s == j + s;
  }

  /**
   * `findAndDelete` on the copy: first looks for the id among the trees' roots and
   * splices that tree out; otherwise searches the trees' children in order.
   */
  method FindAndDelete(nodes: Forest, id: string) returns (found: bool, out: Forest)
    ensures found <==> Deleted(nodes, id).Some?
    ensures found ==> out == Deleted(nodes, id).value
    ensures !found ==> out == nodes
    decreases nodes
  {
    var index := IndexOfId(nodes, id);
    if index > -1 {
      out := nodes[..index] + nodes[index + 1..];
      return true, out;
    }
    var i := 0;
    while i < |nodes|
      invariant i <= |nodes|
      invariant DeletedBelow(nodes, id, i) == Deleted(nodes, id)
    {
      var node := nodes[i];
      var sub, kids := FindAndDelete(node.kids, id);
      if sub {
        out := nodes[i := Tree(node.val, kids)];
        return true, out;
      }
      i := i + 1;
    }
    return false, nodes;
  }

  // ---------------------------------------------------------------- the parent picker

  /** An entry of the parent picker. */
  datatype Choice = Choice(id: string, text: string)

  /** The break marker written with a doubled backslash. */
  const DoubleBreak: string := ['\\', '\\', 'n']

  /** The picker's text: both spellings of the break marker become spaces. */
  function SafeText(s: string): string {
    ReplaceAll(ReplaceAll(s, DoubleBreak, " "), Break, " ")
  }

  /** The picker's text holds no break marker. */
  lemma {:induction false} SafeTextSpec(s: string)
    ensures forall i :: 0 <= i < |SafeText(s)| ==> !BreakAt(SafeText(s), i)
  {
    ReplaceBreakRemovesBreaks(ReplaceAll(s, DoubleBreak, " "));
  }

  function ChoiceOf(v: Info): Choice {
    Choice(v.id, SafeText(v.text))
  }

  /** The picker entries of a pre-order listing, in order. */
  function Choices(vs: seq<Info>): seq<Choice> {
    seq(|vs|, k requires 0 <= k < |vs| => ChoiceOf(vs[k]))
  }

  /** The forest without the nodes that have id `ex`, each removed with its whole subtree. */
  function Pruned(f: Forest, ex: string): Forest
    decreases f
  {
    if f == [] then []
    else if f[0].val.id == ex then Pruned(f[1..], ex)
    else [Tree(f[0].val, Pruned(f[0].kids, ex))] + Pruned(f[1..], ex)
  }

  /** `a` is `b` with some elements left out, the others in their order. */
  predicate SubSeq(a: seq<Info>, b: seq<Info>)
    decreases |b|
  {
    if a == [] then true
    else if b == [] then false
    else (a[0] == b[0] && SubSeq(a[1..], b[1..])) || SubSeq(a, b[1..])
  }

  lemma {:induction false} SubSeqRefl(a: seq<Info>)
    ensures SubSeq(a, a)
    decreases |a|
  {
    if a != [] {
      SubSeqRefl(a[1..]);
    }
  }

  lemma {:induction false} SubSeqEmpty(b: seq<Info>)
    ensures SubSeq([], b)
  {
  }

  lemma {:induction false} SubSeqAppend(a1: seq<Info>, b1: seq<Info>, a2: seq<Info>, b2: seq<Info>)
    requires SubSeq(a1, b1) && SubSeq(a2, b2)
    ensures SubSeq(a1 + a2, b1 + b2)
    decreases |b1|
  {
    if b1 == [] {
      assert a1 == [];
      assert a1 + a2 == a2 && b1 + b2 == b2;
    } else if a1 != [] && a1[0] == b1[0] && SubSeq(a1[1..], b1[1..]) {
      SubSeqAppend(a1[1..], b1[1..], a2, b2);
      assert (a1 + a2)[0] == (b1 + b2)[0];
      assert (a1 + a2)[1..] == a1[1..] + a2 && (b1 + b2)[1..] == b1[1..] + b2;
    } else {
      if a1 == [] {
        SubSeqDropHead(a2, b1, b2);
        assert a1 + a2 == a2;
      } else {
        SubSeqAppend(a1, b1[1..], a2, b2);
        assert (b1 + b2)[1..] == b1[1..] + b2;
        assert a1 + a2 != [];
      }
    }
  }

  /** A subsequence of b2 is one of b1 + b2. */
  lemma {:induction false} SubSeqDropHead(a: seq<Info>, b1: seq<Info>, b2: seq<Info>)
    requires SubSeq(a, b2)
    ensures SubSeq(a, b1 + b2)
    decreases |b1|
  {
    if b1 == [] {
      assert b1 + b2 == b2;
    } else if a != [] {
      SubSeqDropHead(a, b1[1..], b2);
      assert (b1 + b2)[1..] == b1[1..] + b2;
    }
  }

  /**
   * Which nodes of a pre-order listing `vs`, with parent indices `ps`, the picker hides:
   * entry k is true when node k has the excluded id or its parent, listed before it, is
   * hidden; that is, when the node or one of its ancestors has the excluded id.
   */
  function HiddenMask(vs: seq<Info>, ps: seq<Option<nat>>, ex: string, n: nat): (h: seq<bool>)
    requires n <= |vs| == |ps|
    ensures |h| == n
    decreases n
  {
    if n == 0 then []
    else
      var h := HiddenMask(vs, ps, ex, n - 1);
      h + [vs[n - 1].id == ex || (ps[n - 1].Some? && ps[n - 1].value < n - 1 && h[ps[n - 1].value])]
  }

  /** The rule of the mask at position k. */
  predicate MaskAt(H: seq<bool>, G: seq<Info>, P: seq<Option<nat>>, ex: string, k: nat)
    requires k < |H| == |G| == |P|
  {
    H[k] == (G[k].id == ex || (P[k].Some? && P[k].value < k && H[P[k].value]))
  }

  /** H marks a node hidden exactly when it has the excluded id or its parent is marked. */
  predicate MaskOf(H: seq<bool>, G: seq<Info>, P: seq<Option<nat>>, ex: string) {
    |H| == |G| == |P| && forall k :: 0 <= k < |H| ==> MaskAt(H, G, P, ex, k)
  }

  lemma {:induction false} HiddenMaskSpec(vs: seq<Info>, ps: seq<Option<nat>>, ex: string)
    requires |vs| == |ps|
    ensures MaskOf(HiddenMask(vs, ps, ex, |vs|), vs, ps, ex)
  {
    var h := HiddenMask(vs, ps, ex, |vs|);
    forall k | 0 <= k < |vs| ensures MaskAt(h, vs, ps, ex, k) {
      HiddenMaskPrefix(vs, ps, ex, k + 1, |vs|);
    }
  }

  /** A shorter mask is a prefix of a longer one. */
  lemma {:induction false} HiddenMaskPrefix(vs: seq<Info>, ps: seq<Option<nat>>, ex: string, n: nat, n': nat)
    requires 0 < n <= n' <= |vs| == |ps|
    ensures HiddenMask(vs, ps, ex, n) == HiddenMask(vs, ps, ex, n')[..n]
    ensures HiddenMask(vs, ps, ex, n)[n - 1] ==
      (vs[n - 1].id == ex || (ps[n - 1].Some? && ps[n - 1].value < n - 1 && HiddenMask(vs, ps, ex, n)[ps[n - 1].value]))
    decreases n' - n
  {
    var h := HiddenMask(vs, ps, ex, n - 1);
    assert HiddenMask(vs, ps, ex, n)[..n - 1] == h;
    if n < n' {
      HiddenMaskPrefix(vs, ps, ex, n + 1, n');
      assert HiddenMask(vs, ps, ex, n + 1)[..n] == HiddenMask(vs, ps, ex, n);
    }
  }

  lemma {:induction false} MaskOfAt(H: seq<bool>, G: seq<Info>, P: seq<Option<nat>>, ex: string, k: nat)
    requires MaskOf(H, G, P, ex) && k < |H|
    ensures MaskAt(H, G, P, ex, k)
  {
  }

  /** The entries at positions [lo, hi) of the listing `vs` that the mask H does not hide, in order. */
  function Shown<T>(vs: seq<T>, H: seq<bool>, lo: nat, hi: nat): seq<T>
    requires hi <= |vs| == |H|
    decreases hi - lo
  {
    if hi <= lo then []
    else (if H[lo] then [] else [vs[lo]]) + Shown(vs, H, lo + 1, hi)
  }

  /** The forest's pre-order listing without every node that is, or descends from, a node with id `ex`. */
  function Outside(f: Forest, ex: string): seq<Info> {
    ValsFSize(f);
    ParentsFSize(f, 0, None);
    Shown(ValsF(f), HiddenMask(ValsF(f), Parents(f), ex, SizeF(f)), 0, SizeF(f))
  }

  lemma {:induction false} ShownSplit<T>(vs: seq<T>, H: seq<bool>, lo: nat, mid: nat, hi: nat)
    requires lo <= mid <= hi <= |vs| == |H|
    ensures Shown(vs, H, lo, hi) == Shown(vs, H, lo, mid) + Shown(vs, H, mid, hi)
    decreases mid - lo
  {
    if lo == mid {
      assert Shown(vs, H, lo, mid) == [];
    } else {
      ShownSplit(vs, H, lo + 1, mid, hi);
      var x := if H[lo] then [] else [vs[lo]];
      var a, b := Shown(vs, H, lo + 1, mid), Shown(vs, H, mid, hi);
      assert Shown(vs, H, lo, hi) == x + (a + b);
      assert Shown(vs, H, lo, mid) == x + a;
      AppendAssoc(x, a, b);
    }
  }

  /** Where a forest's parent list sits in P: its roots' parent at `start`, then the first root's descendants, then the rest. */
  lemma {:induction false} EmbedsParentsHead<T>(P: seq<Option<nat>>, f: seq<Tree<T>>, start: nat, par: Option<nat>)
    requires f != [] && Embeds(P, start, ParentsF(f, start, par))
    ensures start < |P| && P[start] == par
    ensures Embeds(P, start + 1, ParentsF(f[0].kids, start + 1, Some(start)))
    ensures Embeds(P, start + Size(f[0]), ParentsF(f[1..], start + Size(f[0]), par))
  {
    var K := ParentsF(f[0].kids, start + 1, Some(start));
    var R := ParentsF(f[1..], start + Size(f[0]), par);
    ParentsFCons(f, start, par);
    ParentsFSize(f[0].kids, start + 1, Some(start));
    EmbedsSplit(P, start, [par] + K, R);
    EmbedsSplit(P, start, [par], K);
    assert P[start + 0] == [par][0];
  }

  /** The shown part of a forest's block whose first root is shown: that root, then its descendants' shown part, then the rest's. */
  lemma {:induction false} ShownKept<T>(G: seq<T>, H: seq<bool>, f: seq<Tree<T>>, start: nat, A: seq<T>, B: seq<T>)
    requires f != [] && |G| == |H| && Embeds(G, start, ValsF(f))
    requires start + 1 + SizeF(f[0].kids) + SizeF(f[1..]) <= |G| && !H[start]
    requires Shown(G, H, start + 1, start + 1 + SizeF(f[0].kids)) == A
    requires Shown(G, H, start + Size(f[0]), start + Size(f[0]) + SizeF(f[1..])) == B
    ensures Shown(G, H, start, start + SizeF(f)) == [f[0].val] + A + B
  {
    EmbedsHead(G, start, f);
    ShownSplit(G, H, start + 1, start + Size(f[0]), start + SizeF(f));
    AppendAssoc([f[0].val], A, B);
  }

  /** The shown part of a block whose first root is hidden and whose `k` descendants show nothing: the `r` nodes' after them. */
  lemma {:induction false} ShownSkipped<T>(G: seq<T>, H: seq<bool>, lo: nat, k: nat, m: nat, r: nat, hi: nat)
    requires m == lo + 1 + k && hi == m + r && hi <= |G| == |H| && H[lo]
    requires Shown(G, H, lo + 1, lo + 1 + k) == []
    ensures Shown(G, H, lo, hi) == Shown(G, H, m, m + r)
  {
    ShownSplit(G, H, lo + 1, m, hi);
    assert Shown(G, H, lo, hi) == [] + Shown(G, H, lo + 1, hi);
  }

  /** Below a hidden node, every node is hidden. */
  lemma {:induction false} HiddenBlock(G: seq<Info>, H: seq<bool>, P: seq<Option<nat>>, ex: string,
                                       g: Forest, b: nat, q: Option<nat>)
    requires MaskOf(H, G, P, ex) && b + SizeF(g) <= |G| && Embeds(P, b, ParentsF(g, b, q))
    requires q.Some? && q.value < b && H[q.value]
    ensures Shown(G, H, b, b + SizeF(g)) == []
    decreases g
  {
    if g != [] {
      var m := b + Size(g[0]);
      EmbedsParentsHead(P, g, b, q);
      MaskOfAt(H, G, P, ex, b);
      HiddenBlock(G, H, P, ex, g[0].kids, b + 1, Some(b));
      HiddenBlock(G, H, P, ex, g[1..], m, q);
      ShownSkipped(G, H, b, SizeF(g[0].kids), m, SizeF(g[1..]), b + SizeF(g));
    }
  }

  /** The forest's pre-order listing without the nodes that have id `ex` or descend from one that has. */
  function PrunedVals(f: Forest, ex: string): seq<Info>
    decreases f
  {
    if f == [] then []
    else if f[0].val.id == ex then PrunedVals(f[1..], ex)
    else [f[0].val] + PrunedVals(f[0].kids, ex) + PrunedVals(f[1..], ex)
  }

  lemma {:induction false} PrunedValsListing(f: Forest, ex: string)
    ensures PrunedVals(f, ex) == ValsF(Pruned(f, ex))
    decreases f
  {
    if f != [] {
      PrunedValsListing(f[1..], ex);
      if f[0].val.id == ex {
        PrunedDrop(f, ex);
      } else {
        PrunedValsListing(f[0].kids, ex);
        PrunedCons(f, ex);
      }
    }
  }

  /** The pruned listing of a forest that sits at `start` in G is the shown part of its block. */
  lemma {:induction false} PrunedShown(G: seq<Info>, H: seq<bool>, P: seq<Option<nat>>, ex: string,
                                       f: Forest, start: nat, par: Option<nat>)
    requires MaskOf(H, G, P, ex) && Embeds(G, start, ValsF(f)) && Embeds(P, start, ParentsF(f, start, par))
    requires par.Some? ==> par.value < start && !H[par.value]
    ensures start + SizeF(f) <= |G|
    ensures Shown(G, H, start, start + SizeF(f)) == PrunedVals(f, ex)
    decreases f, 1
  {
    ValsFSize(f);
    if f != [] {
      var m := start + Size(f[0]);
      EmbedsHead(G, start, f);
      EmbedsParentsHead(P, f, start, par);
      MaskOfAt(H, G, P, ex, start);
      PrunedShown(G, H, P, ex, f[1..], m, par);
      if f[0].val.id == ex {
        PrunedShownDrop(G, H, P, ex, f, start);
      } else {
        PrunedShownKeep(G, H, P, ex, f, start);
      }
    }
  }

  /** PrunedShown when the first root has the excluded id: it and its descendants are hidden. */
  lemma {:induction false} PrunedShownDrop(G: seq<Info>, H: seq<bool>, P: seq<Option<nat>>, ex: string,
                                           f: Forest, start: nat)
    requires MaskOf(H, G, P, ex) && f != [] && f[0].val.id == ex && start < start + SizeF(f) <= |G| && H[start]
    requires Embeds(P, start + 1, ParentsF(f[0].kids, start + 1, Some(start)))
    requires Shown(G, H, start + Size(f[0]), start + Size(f[0]) + SizeF(f[1..])) == PrunedVals(f[1..], ex)
    ensures Shown(G, H, start, start + SizeF(f)) == PrunedVals(f, ex)
  {
    HiddenBlock(G, H, P, ex, f[0].kids, start + 1, Some(start));
    DropClose(G, H, ex, f, start);
  }

  lemma {:induction false} DropClose(G: seq<Info>, H: seq<bool>, ex: string, f: Forest, start: nat)
    requires f != [] && f[0].val.id == ex && |G| == |H|
    requires start + 1 + SizeF(f[0].kids) + SizeF(f[1..]) <= |G| && H[start]
    requires Shown(G, H, start + 1, start + 1 + SizeF(f[0].kids)) == []
    requires Shown(G, H, start + Size(f[0]), start + Size(f[0]) + SizeF(f[1..])) == PrunedVals(f[1..], ex)
    ensures Shown(G, H, start, start + SizeF(f)) == PrunedVals(f, ex)
  {
    ShownSkipped(G, H, start, SizeF(f[0].kids), start + Size(f[0]), SizeF(f[1..]), start + SizeF(f));
  }

  /** PrunedShown when the first root is shown: it, then its pruned children, then the pruned rest. */
  lemma {:induction false} PrunedShownKeep(G: seq<Info>, H: seq<bool>, P: seq<Option<nat>>, ex: string,
                                           f: Forest, start: nat)
    requires MaskOf(H, G, P, ex) && f != [] && f[0].val.id != ex && start + SizeF(f) <= |G|
    requires start < |H| && !H[start] && Embeds(G, start, ValsF(f))
    requires Embeds(G, start + 1, ValsF(f[0].kids)) && Embeds(P, start + 1, ParentsF(f[0].kids, start + 1, Some(start)))
    requires Shown(G, H, start + Size(f[0]), start + Size(f[0]) + SizeF(f[1..])) == PrunedVals(f[1..], ex)
    ensures Shown(G, H, start, start + SizeF(f)) == PrunedVals(f, ex)
    decreases f, 0
  {
    PrunedShown(G, H, P, ex, f[0].kids, start + 1, Some(start));
    ShownKept(G, H, f, start, PrunedVals(f[0].kids, ex), PrunedVals(f[1..], ex));
  }

  /** Pruning a forest whose first root goes. */
  lemma {:induction false} PrunedDrop(f: Forest, ex: string)
    requires f != [] && f[0].val.id == ex
    ensures ValsF(Pruned(f, ex)) == ValsF(Pruned(f[1..], ex))
  {
  }

  /** Pruning a forest whose first root is kept. */
  lemma {:induction false} PrunedCons(f: Forest, ex: string)
    requires f != [] && f[0].val.id != ex
    ensures ValsF(Pruned(f, ex)) == [f[0].val] + ValsF(Pruned(f[0].kids, ex)) + ValsF(Pruned(f[1..], ex))
  {
    var t := f[0];
    var p := [Tree(t.val, Pruned(t.kids, ex))] + Pruned(f[1..], ex);
    assert p[0].kids == Pruned(t.kids, ex) && p[1..] == Pruned(f[1..], ex);
    ValsFCons(p);
  }

  /**
   * The pruned forest lists, in pre-order, exactly the nodes that neither have the excluded
   * id nor descend from a node that has it. It holds no node with that id, is the forest
   * itself when no node has the id, and lists a subset of the forest's nodes in order.
   */
  lemma {:induction false} PrunedSpec(f: Forest, ex: string)
    ensures ValsF(Pruned(f, ex)) == Outside(f, ex)
    ensures NoId(ValsF(Pruned(f, ex)), ex)
    ensures NoId(ValsF(f), ex) ==> Pruned(f, ex) == f
    ensures SubSeq(ValsF(Pruned(f, ex)), ValsF(f))
    decreases f
  {
    PrunedListing(f, ex);
    PrunedKept(f, ex);
  }

  lemma {:induction false} PrunedListing(f: Forest, ex: string)
    ensures ValsF(Pruned(f, ex)) == Outside(f, ex)
  {
    var G, P := ValsF(f), Parents(f);
    ValsFSize(f);
    ParentsFSize(f, 0, None);
    var H := HiddenMask(G, P, ex, SizeF(f));
    HiddenMaskSpec(G, P, ex);
    assert Embeds(G, 0, G) && Embeds(P, 0, P);
    PrunedShown(G, H, P, ex, f, 0, None);
    PrunedValsListing(f, ex);
  }

  lemma {:induction false} PrunedKept(f: Forest, ex: string)
    ensures NoId(ValsF(Pruned(f, ex)), ex)
    ensures NoId(ValsF(f), ex) ==> Pruned(f, ex) == f
    ensures SubSeq(ValsF(Pruned(f, ex)), ValsF(f))
    decreases f
  {
    if f != [] {
      var t, rest := f[0], f[1..];
      PrunedKept(t.kids, ex);
      PrunedKept(rest, ex);
      ValsFCons(f);
      var A, B := ValsF(t.kids), ValsF(rest);
      NoIdAppend([t.val] + A, B, ex);
      NoIdAppend([t.val], A, ex);
      if t.val.id == ex {
        SubSeqDropHead(ValsF(Pruned(rest, ex)), [t.val] + A, B);
        assert ValsF(f) == ([t.val] + A) + B;
        assert ValsF(f)[0] == t.val;
      } else {
        assert f == [t] + rest;
        var p := [Tree(t.val, Pruned(t.kids, ex))] + Pruned(rest, ex);
        assert p[0].kids == Pruned(t.kids, ex) && p[1..] == Pruned(rest, ex);
        ValsFCons(p);
        var PA, PB := ValsF(Pruned(t.kids, ex)), ValsF(Pruned(rest, ex));
        NoIdAppend([t.val] + PA, PB, ex);
        NoIdAppend([t.val], PA, ex);
        SubSeqRefl([t.val]);
        SubSeqAppend([t.val], [t.val], PA, A);
        SubSeqAppend([t.val] + PA, [t.val] + A, PB, B);
      }
    }
  }

  lemma {:induction false} PrunedAppend(a: Forest, b: Forest, ex: string)
    ensures Pruned(a + b, ex) == Pruned(a, ex) + Pruned(b, ex)
    decreases a
  {
    if a == [] {
      assert a + b == b;
    } else {
      assert (a + b)[0] == a[0] && (a + b)[1..] == a[1..] + b;
      PrunedAppend(a[1..], b, ex);
    }
  }

  /** The picker entries of one tree. */
  lemma {:induction false} PrunedOne(t: Node, ex: string)
    ensures t.val.id == ex ==> Pruned([t], ex) == []
    ensures t.val.id != ex ==> ValsF(Pruned([t], ex)) == [t.val] + ValsF(Pruned(t.kids, ex))
  {
    assert [t][1..] == [];
    if t.val.id != ex {
      ValsFOne(Tree(t.val, Pruned(t.kids, ex)));
    }
  }

  lemma {:induction false} ChoicesAppend(a: seq<Info>, b: seq<Info>)
    ensures Choices(a + b) == Choices(a) + Choices(b)
  {
  }

  /** The picker entries of the first i + 1 trees, from those of the first i. */
  lemma {:induction false} TraverseStep(nodes: Forest, i: nat, ex: string)
    requires i < |nodes|
    ensures Choices(ValsF(Pruned(nodes[..i + 1], ex))) ==
      Choices(ValsF(Pruned(nodes[..i], ex))) +
      (if nodes[i].val.id == ex then [] else [ChoiceOf(nodes[i].val)] + Choices(ValsF(Pruned(nodes[i].kids, ex))))
  {
    var n := nodes[i];
    var before, here := Pruned(nodes[..i], ex), Pruned([n], ex);
    assert Pruned(nodes[..i + 1], ex) == before + here by {
      assert nodes[..i + 1] == nodes[..i] + [n];
      PrunedAppend(nodes[..i], [n], ex);
    }
    ValsFAppend(before, here);
    ChoicesAppend(ValsF(before), ValsF(here));
    PrunedOne(n, ex);
    if n.val.id != ex {
      ChoicesAppend([n.val], ValsF(Pruned(n.kids, ex)));
      assert Choices([n.val]) == [ChoiceOf(n.val)];
    } else {
      assert ValsF(here) == [];
      assert Choices(ValsF(here)) == [];
    }
  }

  /**
   * `traverse`: lists the trees in order, each tree whose root does not have the
   * excluded id with its root's entry followed by the entries of its children.
   */
  method Traverse(nodes: Forest, ex: string, list: seq<Choice>) returns (out: seq<Choice>)
    ensures out == list + Choices(ValsF(Pruned(nodes, ex)))
    decreases nodes, 1
  {
    out := list;
    var i := 0;
    assert nodes[..0] == [];
    while i < |nodes|
      invariant i <= |nodes|
      invariant out == list + Choices(ValsF(Pruned(nodes[..i], ex)))
    {
      out := TraverseTree(nodes, i, ex, list, out);
      i := i + 1;
    }
    assert nodes[..i] == nodes;
  }

  /** One turn of traverse's loop: tree i's entries, unless its root has the excluded id. */
  method TraverseTree(nodes: Forest, i: nat, ex: string, list: seq<Choice>, out: seq<Choice>) returns (out': seq<Choice>)
    requires i < |nodes| && out == list + Choices(ValsF(Pruned(nodes[..i], ex)))
    ensures out' == list + Choices(ValsF(Pruned(nodes[..i + 1], ex)))
    decreases nodes, 0
  {
    var n := nodes[i];
    var before := Choices(ValsF(Pruned(nodes[..i], ex)));
    TraverseStep(nodes, i, ex);
    if n.val.id != ex {
      var c := ChoiceOf(n.val);
      var here := Choices(ValsF(Pruned(n.kids, ex)));
      out' := Traverse(n.kids, ex, out + [Choice(n.val.id, SafeText(n.val.text))]);
      AppendAssoc(out, [c], here);
      AppendAssoc(list, before, [c] + here);
    } else {
      out' := out;
      assert before + [] == before;
    }
  }
}
