/**
 * Ordered trees and forests, and their pre-order views.
 *
 * Every tree in the system (the diagram's node forest, and the forests the layout
 * engine annotates with sizes and positions) is a `Tree<T>`: a value of type T and an
 * ordered list of children. The pre-order views defined here (values, parent indices,
 * depths) are the common reference against which the engine's traversals, the
 * text importer and the editing operations are specified.
 */
module Trees {
  import opened Wrappers

  datatype Tree<T> = Tree(val: T, kids: seq<Tree<T>>)

  /** Number of nodes in a tree. */
  function Size<T>(t: Tree<T>): nat
    decreases t
  {
    1 + SizeF(t.kids)
  }

  /** Number of nodes in a forest. */
  function SizeF<T>(f: seq<Tree<T>>): nat
    decreases f
  {
    if f == [] then 0 else Size(f[0]) + SizeF(f[1..])
  }

  /** The node values of a tree in pre-order. */
  function Vals<T>(t: Tree<T>): seq<T>
    decreases t
  {
    [t.val] + ValsF(t.kids)
  }

  /** The node values of a forest in pre-order. */
  function ValsF<T>(f: seq<Tree<T>>): seq<T>
    decreases f
  {
    if f == [] then [] else Vals(f[0]) + ValsF(f[1..])
  }

  /**
   * The pre-order parent index of every node of forest `f`, whose first node has
   * pre-order index `start` and whose roots have parent `par`.
   */
  function ParentsF<T>(f: seq<Tree<T>>, start: nat, par: Option<nat>): seq<Option<nat>>
    decreases f
  {
    if f == [] then []
    else [par] + ParentsF(f[0].kids, start + 1, Some(start)) + ParentsF(f[1..], start + Size(f[0]), par)
  }

  /** Pre-order parent indices of a forest: None for a root. */
  function Parents<T>(f: seq<Tree<T>>): seq<Option<nat>> {
    ParentsF(f, 0, None)
  }

  /** The depth of every node of forest `f` in pre-order, its roots being at depth `d`. */
  function DepthsF<T>(f: seq<Tree<T>>, d: nat): seq<nat>
    decreases f
  {
    if f == [] then [] else [d] + DepthsF(f[0].kids, d + 1) + DepthsF(f[1..], d)
  }

  /** Two forests with the same branching structure, whatever their values. */
  predicate SameShapeF<A, B>(a: seq<Tree<A>>, b: seq<Tree<B>>)
    decreases a
  {
    |a| == |b| && (a != [] ==> SameShapeF(a[0].kids, b[0].kids) && SameShapeF(a[1..], b[1..]))
  }

  predicate SameShape<A, B>(a: Tree<A>, b: Tree<B>) {
    SameShapeF(a.kids, b.kids)
  }

  lemma {:induction false} SizeFAppend<T>(a: seq<Tree<T>>, b: seq<Tree<T>>)
    ensures SizeF(a + b) == SizeF(a) + SizeF(b)
    decreases a
  {
    if a == [] {
      assert a + b == b;
    } else {
      assert (a + b)[1..] == a[1..] + b;
      SizeFAppend(a[1..], b);
    }
  }

  lemma {:induction false} ValsFAppend<T>(a: seq<Tree<T>>, b: seq<Tree<T>>)
    ensures ValsF(a + b) == ValsF(a) + ValsF(b)
    decreases a
  {
    if a == [] {
      assert a + b == b;
    } else {
      assert (a + b)[1..] == a[1..] + b;
      ValsFAppend(a[1..], b);
    }
  }

  /** The pre-order listing has one entry per node. */
  lemma {:induction false} ValsFSize<T>(f: seq<Tree<T>>)
    ensures |ValsF(f)| == SizeF(f)
    decreases f
  {
    if f != [] {
      ValsFSize(f[0].kids);
      ValsFSize(f[1..]);
    }
  }

  lemma {:induction false} ParentsFSize<T>(f: seq<Tree<T>>, start: nat, par: Option<nat>)
    ensures |ParentsF(f, start, par)| == SizeF(f)
    decreases f
  {
    if f != [] {
      ParentsFSize(f[0].kids, start + 1, Some(start));
      ParentsFSize(f[1..], start + Size(f[0]), par);
    }
  }

  lemma {:induction false} DepthsFSize<T>(f: seq<Tree<T>>, d: nat)
    ensures |DepthsF(f, d)| == SizeF(f)
    decreases f
  {
    if f != [] {
      DepthsFSize(f[0].kids, d + 1);
      DepthsFSize(f[1..], d);
    }
  }

  /**
   * Every node's parent comes before it in pre-order: a node listed at position k
   * (counting from `start`) either has the roots' parent `par`, or a parent at a
   * position in [start, start + k).
   */
  lemma {:induction false} ParentsBefore<T>(f: seq<Tree<T>>, start: nat, par: Option<nat>)
    ensures forall k :: 0 <= k < |ParentsF(f, start, par)| ==>
      ParentsF(f, start, par)[k] == par ||
      (ParentsF(f, start, par)[k].Some? && start <= ParentsF(f, start, par)[k].value < start + k)
    decreases f
  {
    if f != [] {
      var a := ParentsF(f[0].kids, start + 1, Some(start));
      var b := ParentsF(f[1..], start + Size(f[0]), par);
      ParentsBefore(f[0].kids, start + 1, Some(start));
      ParentsBefore(f[1..], start + Size(f[0]), par);
      ParentsFSize(f[0].kids, start + 1, Some(start));
      var all := [par] + a + b;
      forall k | 0 <= k < |all|
        ensures all[k] == par || (all[k].Some? && start <= all[k].value < start + k)
      {
        if 1 <= k < 1 + |a| {
          assert all[k] == a[k - 1];
        } else if k >= 1 + |a| {
          assert all[k] == b[k - 1 - |a|];
        }
      }
    }
  }

  lemma {:induction false} SameShapeSize<A, B>(a: seq<Tree<A>>, b: seq<Tree<B>>)
    requires SameShapeF(a, b)
    ensures SizeF(a) == SizeF(b)
    decreases a
  {
    if a != [] {
      SameShapeSize(a[0].kids, b[0].kids);
      SameShapeSize(a[1..], b[1..]);
    }
  }

  /** Parent indices depend only on the shape of a forest. */
  lemma {:induction false} SameShapeParents<A, B>(a: seq<Tree<A>>, b: seq<Tree<B>>, start: nat, par: Option<nat>)
    requires SameShapeF(a, b)
    ensures ParentsF(a, start, par) == ParentsF(b, start, par)
    decreases a
  {
    if a != [] {
      SameShapeSize(a[0].kids, b[0].kids);
      SameShapeParents(a[0].kids, b[0].kids, start + 1, Some(start));
      SameShapeParents(a[1..], b[1..], start + Size(a[0]), par);
    }
  }

  /** Depths depend only on the shape of a forest. */
  lemma {:induction false} SameShapeDepths<A, B>(a: seq<Tree<A>>, b: seq<Tree<B>>, d: nat)
    requires SameShapeF(a, b)
    ensures DepthsF(a, d) == DepthsF(b, d)
    decreases a
  {
    if a != [] {
      SameShapeDepths(a[0].kids, b[0].kids, d + 1);
      SameShapeDepths(a[1..], b[1..], d);
    }
  }

  /** Forests whose trees have pairwise the same shape have the same shape. */
  lemma {:induction false} SameShapePointwise<A, B>(a: seq<Tree<A>>, b: seq<Tree<B>>)
    requires |a| == |b|
    requires forall i :: 0 <= i < |a| ==> SameShape(a[i], b[i])
    ensures SameShapeF(a, b)
    decreases a
  {
    if a != [] {
      SameShapePointwise(a[1..], b[1..]);
    }
  }

  /** G holds the list L from index `start` on. */
  predicate Embeds<T(==)>(G: seq<T>, start: nat, L: seq<T>) {
    start + |L| <= |G| && forall k :: 0 <= k < |L| ==> G[start + k] == L[k]
  }

  lemma {:induction false} EmbedsSplit<T>(G: seq<T>, start: nat, A: seq<T>, B: seq<T>)
    requires Embeds(G, start, A + B)
    ensures Embeds(G, start, A) && Embeds(G, start + |A|, B)
  {
    forall k | 0 <= k < |A| ensures G[start + k] == A[k] {
      assert (A + B)[k] == A[k];
    }
    forall k | 0 <= k < |B| ensures G[start + |A| + k] == B[k] {
      assert G[start + (|A| + k)] == (A + B)[|A| + k];
    }
  }

  /** Where a forest's listing sits in G: its first root at `start`, that root's descendants next, the rest after them. */
  lemma {:induction false} EmbedsHead<T>(G: seq<T>, start: nat, f: seq<Tree<T>>)
    requires f != [] && Embeds(G, start, ValsF(f))
    ensures start < |G| && G[start] == f[0].val
    ensures Embeds(G, start + 1, ValsF(f[0].kids))
    ensures Embeds(G, start + Size(f[0]), ValsF(f[1..]))
  {
    var t := f[0];
    ValsFSize(t.kids);
    assert ValsF(f) == ([t.val] + ValsF(t.kids)) + ValsF(f[1..]);
    EmbedsSplit(G, start, [t.val] + ValsF(t.kids), ValsF(f[1..]));
    EmbedsSplit(G, start, [t.val], ValsF(t.kids));
    assert G[start + 0] == ([t.val])[0];
  }

  /** A tree without children. */
  function Leaf<T>(x: T): Tree<T> {
    Tree(x, [])
  }

  lemma {:induction false} SizeFOne<T>(t: Tree<T>)
    ensures SizeF([t]) == Size(t)
  {
    assert [t][1..] == [];
  }

  lemma {:induction false} ValsFOne<T>(t: Tree<T>)
    ensures ValsF([t]) == Vals(t)
  {
    assert [t][1..] == [];
  }

  lemma {:induction false} ParentsFAppend<T>(a: seq<Tree<T>>, b: seq<Tree<T>>, start: nat, par: Option<nat>)
    ensures ParentsF(a + b, start, par) == ParentsF(a, start, par) + ParentsF(b, start + SizeF(a), par)
    decreases a
  {
    if a == [] {
      assert a + b == b;
    } else {
      assert (a + b)[0] == a[0];
      assert (a + b)[1..] == a[1..] + b;
      ParentsFAppend(a[1..], b, start + Size(a[0]), par);
    }
  }

  lemma {:induction false} SameShapeRefl<T>(f: seq<Tree<T>>)
    ensures SameShapeF(f, f)
    decreases f
  {
    if f != [] {
      SameShapeRefl(f[0].kids);
      SameShapeRefl(f[1..]);
    }
  }

  /** The pre-order listing of a non-empty forest: its first root, that root's descendants, the rest. */
  lemma {:induction false} ValsFCons<T>(f: seq<Tree<T>>)
    requires f != []
    ensures ValsF(f) == [f[0].val] + ValsF(f[0].kids) + ValsF(f[1..])
  {
  }

  /** The parent list of a non-empty forest: its first root, that root's descendants, the rest. */
  lemma {:induction false} ParentsFCons<T>(f: seq<Tree<T>>, start: nat, par: Option<nat>)
    requires f != []
    ensures ParentsF(f, start, par) == [par] + ParentsF(f[0].kids, start + 1, Some(start)) + ParentsF(f[1..], start + Size(f[0]), par)
  {
  }

  /** The pre-order listing around the tree at position i. */
  lemma {:induction false} ValsFSplit<T>(f: seq<Tree<T>>, i: nat)
    requires i < |f|
    ensures ValsF(f) == ValsF(f[..i]) + [f[i].val] + ValsF(f[i].kids) + ValsF(f[i + 1..])
  {
    assert f == f[..i] + f[i..];
    ValsFAppend(f[..i], f[i..]);
    ValsFDrop(f, i);
    var a, b, c, d := ValsF(f[..i]), [f[i].val], ValsF(f[i].kids), ValsF(f[i + 1..]);
    assert a + (b + c + d) == a + b + c + d;
  }

  /** The pre-order listing of the suffix starting at position i. */
  lemma {:induction false} ValsFDrop<T>(f: seq<Tree<T>>, i: nat)
    requires i < |f|
    ensures ValsF(f[i..]) == [f[i].val] + ValsF(f[i].kids) + ValsF(f[i + 1..])
  {
    assert f[i..][0] == f[i] && f[i..][1..] == f[i + 1..];
  }

  /** Concatenation is associative. */
  lemma {:induction false} AppendAssoc<X>(a: seq<X>, b: seq<X>, c: seq<X>)
    ensures a + (b + c) == (a + b) + c
  {
  }
}
