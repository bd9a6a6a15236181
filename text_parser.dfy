/**
 * The text importer: turns an indented outline, one node per line, into a node forest.
 *
 * Blank lines are ignored. A line's level is its number of leading tabs or, without
 * tabs, half its leading white space rounded down. The importer keeps a stack of the
 * nodes a new line may hang under; a level-0 line starts a new root, any other line
 * becomes the last child of the nearest stacked node of a smaller level, and a line
 * with no such node (an "orphan") becomes a root as well.
 *
 * The model proves that this stack discipline computes a simple reference
 * relation: a line's parent is the NEAREST EARLIER LINE WITH A STRICTLY SMALLER LEVEL
 * (`ParentOf`), and a line without one is a root. The stack is always the rightmost
 * path of the forest built so far (`Spine`), its levels strictly increase, and it
 * holds exactly the earlier lines not followed by a line of a smaller or equal level.
 *
 * Node ids come from the clock and a random number in the source; here the caller
 * supplies them as a function of the line's position (`ids`).
 */
module TextParser {
  import opened Wrappers
  import opened Text
  import opened Trees
  import opened Diagram

  // ---------------------------------------------------------------- lines and levels

  /** The pieces that are not blank once trimmed, in order. */
  function NonBlank(parts: seq<string>): (lines: seq<string>)
    ensures |lines| <= |parts|
  {
    if parts == [] then []
    else (if Trim(parts[0]) != "" then [parts[0]] else []) + NonBlank(parts[1..])
  }

  /** The lines of `text` that hold something other than white space. */
  function Lines(text: string): seq<string> {
    NonBlank(Split(text, '\n'))
  }

  /** Exactly the pieces that are not blank survive, each of them non-blank. */
  lemma {:induction false} NonBlankSpec(parts: seq<string>)
    ensures forall s :: s in NonBlank(parts) <==> s in parts && Trim(s) != ""
    decreases parts
  {
    if parts != [] {
      NonBlankSpec(parts[1..]);
      assert parts == [parts[0]] + parts[1..];
    }
  }

  /** Filtering commutes with concatenation, so the kept pieces stay in their order. */
  lemma {:induction false} NonBlankAppend(a: seq<string>, b: seq<string>)
    ensures NonBlank(a + b) == NonBlank(a) + NonBlank(b)
    decreases a
  {
    if a == [] {
      assert a + b == b;
    } else {
      assert (a + b)[0] == a[0];
      assert (a + b)[1..] == a[1..] + b;
      NonBlankAppend(a[1..], b);
    }
  }

  /** The nesting level of a line: its leading tabs, or else half its leading white space. */
  function Level(line: string): nat {
    if LeadingTabs(line) > 0 then LeadingTabs(line) else LeadingSpaces(line) / 2
  }

  function Levels(lines: seq<string>): (lv: seq<nat>)
    ensures |lv| == |lines|
  {
    seq(|lines|, i requires 0 <= i < |lines| => Level(lines[i]))
  }

  // ---------------------------------------------------------------- the reference relation

  /** The nearest index below `j` whose level is below `lvl`. */
  function Nearest(lv: seq<nat>, lvl: nat, j: nat): Option<nat>
    requires j <= |lv|
    decreases j
  {
    if j == 0 then None
    else if lv[j - 1] < lvl then Some(j - 1)
    else Nearest(lv, lvl, j - 1)
  }

  /** The parent of line k: the nearest earlier line with a strictly smaller level; None for a root. */
  function ParentOf(lv: seq<nat>, k: nat): Option<nat>
    requires k < |lv|
  {
    Nearest(lv, lv[k], k)
  }

  lemma {:induction false} NearestSpec(lv: seq<nat>, lvl: nat, j: nat)
    requires j <= |lv|
    ensures Nearest(lv, lvl, j).Some? ==>
      var p := Nearest(lv, lvl, j).value;
      p < j && lv[p] < lvl && forall m :: p < m < j ==> lv[m] >= lvl
    ensures Nearest(lv, lvl, j).None? <==> forall m :: 0 <= m < j ==> lv[m] >= lvl
    decreases j
  {
    if j > 0 && lv[j - 1] >= lvl {
      NearestSpec(lv, lvl, j - 1);
    }
  }

  /**
   * A line's parent comes before it and has a smaller level, and every line in between
   * has a level at least the line's own; a line is a root exactly when no earlier line
   * has a smaller level. In particular a level-0 line is always a root.
   */
  lemma {:induction false} ParentOfSpec(lv: seq<nat>, k: nat)
    requires k < |lv|
    ensures ParentOf(lv, k).Some? ==>
      var p := ParentOf(lv, k).value;
      p < k && lv[p] < lv[k] && forall m :: p < m < k ==> lv[m] >= lv[k]
    ensures ParentOf(lv, k).None? <==> forall m :: 0 <= m < k ==> lv[m] >= lv[k]
    ensures lv[k] == 0 ==> ParentOf(lv, k).None?
  {
    NearestSpec(lv, lv[k], k);
  }

  // ---------------------------------------------------------------- node styles

  datatype Look = Look(color: string, textColor: string, fontSize: int, fontWeight: string)

  /** Roots, whether at level 0 or orphans: blue, white bold text. */
  const RootLook := Look("#2563EB", "#FFFFFF", 24, "bold")
  /** Attached level-1 lines: light blue. */
  const BranchLook := Look("#DBEAFE", "#1E293B", 20, "500")
  /** Every other line: near white, no font weight set. */
  const LeafLook := Look("#F8FAFC", "#1E293B", 18, "")

  function LookOf(lv: seq<nat>, k: nat): Look
    requires k < |lv|
  {
    if ParentOf(lv, k).None? then RootLook
    else if lv[k] == 1 then BranchLook
    else LeafLook
  }

  function Styled(id: string, line: string, look: Look): Info {
    Info(id, Trim(line), look.color, look.textColor, look.fontSize, look.fontWeight, "", "", 0.0, 0.0)
  }

  /** The node the importer makes for line k. */
  function InfoAt(lines: seq<string>, ids: nat -> string, k: nat): Info
    requires k < |lines|
  {
    Styled(ids(k), lines[k], LookOf(Levels(lines), k))
  }

  /** The nodes of the first k lines, in line order. */
  function Expected(lines: seq<string>, ids: nat -> string, k: nat): (infos: seq<Info>)
    requires k <= |lines|
    ensures |infos| == k
  {
    if k == 0 then [] else Expected(lines, ids, k - 1) + [InfoAt(lines, ids, k - 1)]
  }

  /** The parents of the first k lines. */
  function ParentList(lv: seq<nat>, k: nat): (ps: seq<Option<nat>>)
    requires k <= |lv|
    ensures |ps| == k
  {
    if k == 0 then [] else ParentList(lv, k - 1) + [ParentOf(lv, k - 1)]
  }

  lemma {:induction false} ExpectedAt(lines: seq<string>, ids: nat -> string, k: nat, i: nat)
    requires i < k <= |lines|
    ensures Expected(lines, ids, k)[i] == InfoAt(lines, ids, i)
    decreases k
  {
    if i < k - 1 {
      ExpectedAt(lines, ids, k - 1, i);
    }
  }

  lemma {:induction false} ParentListAt(lv: seq<nat>, k: nat, i: nat)
    requires i < k <= |lv|
    ensures ParentList(lv, k)[i] == ParentOf(lv, i)
    decreases k
  {
    if i < k - 1 {
      ParentListAt(lv, k - 1, i);
    }
  }

  // ---------------------------------------------------------------- the stack

  /** A stack entry: a line's level and the line (which is also its node's pre-order index). */
  datatype Entry = Entry(level: nat, line: nat)

  /** The stack after popping every top entry whose level is at least `lvl`. */
  function Popped(st: seq<Entry>, lvl: nat): seq<Entry>
    decreases |st|
  {
    if st != [] && st[|st| - 1].level >= lvl then Popped(st[..|st| - 1], lvl) else st
  }

  /** The stack after the first k lines, each line popping and then pushing itself. */
  function Visible(lv: seq<nat>, k: nat): seq<Entry>
    requires k <= |lv|
  {
    if k == 0 then [] else Popped(Visible(lv, k - 1), lv[k - 1]) + [Entry(lv[k - 1], k - 1)]
  }

  /** Entries are for lines before k with their levels, and both lines and levels strictly increase. */
  predicate Stacked(st: seq<Entry>, lv: seq<nat>, k: nat) {
    && (forall a :: 0 <= a < |st| ==> st[a].line < k && st[a].line < |lv| && st[a].level == lv[st[a].line])
    && (forall a, b :: 0 <= a < b < |st| ==> st[a].line < st[b].line && st[a].level < st[b].level)
  }

  predicate Holds(st: seq<Entry>, j: nat) {
    exists a :: 0 <= a < |st| && st[a].line == j
  }

  lemma {:induction false} PoppedPrefix(st: seq<Entry>, lvl: nat)
    ensures |Popped(st, lvl)| <= |st| && Popped(st, lvl) == st[..|Popped(st, lvl)|]
    ensures Popped(st, lvl) != [] ==> Popped(st, lvl)[|Popped(st, lvl)| - 1].level < lvl
    ensures forall i :: |Popped(st, lvl)| <= i < |st| ==> st[i].level >= lvl
    decreases |st|
  {
    if st != [] && st[|st| - 1].level >= lvl {
      PoppedPrefix(st[..|st| - 1], lvl);
    }
  }

  /** Popping to level 0 empties the stack: a level-0 line resets it. */
  lemma {:induction false} PoppedZero(st: seq<Entry>)
    ensures Popped(st, 0) == []
    decreases |st|
  {
    if st != [] {
      PoppedZero(st[..|st| - 1]);
    }
  }

  /** On a stack of increasing levels, popping keeps exactly the entries of a level below `lvl`. */
  lemma {:induction false} PoppedKeeps(st: seq<Entry>, lv: seq<nat>, k: nat, lvl: nat)
    requires Stacked(st, lv, k)
    ensures Stacked(Popped(st, lvl), lv, k)
    ensures forall a :: 0 <= a < |st| ==> (a < |Popped(st, lvl)| <==> st[a].level < lvl)
  {
    PoppedPrefix(st, lvl);
    var p := Popped(st, lvl);
    forall a | 0 <= a < |p|
      ensures p[a] == st[a]
    {
    }
  }

  /** Popping to `lvl` keeps a line on the stack exactly when its level is below `lvl`. */
  lemma {:induction false} HoldsPopped(st: seq<Entry>, lv: seq<nat>, k: nat, lvl: nat, j: nat)
    requires Stacked(st, lv, k) && j < |lv|
    ensures Holds(Popped(st, lvl), j) <==> Holds(st, j) && lv[j] < lvl
  {
    var p := Popped(st, lvl);
    PoppedKeeps(st, lv, k, lvl);
    PoppedPrefix(st, lvl);
    if Holds(p, j) {
      var a :| 0 <= a < |p| && p[a].line == j;
      assert st[a] == p[a];
    }
    if Holds(st, j) && lv[j] < lvl {
      var a :| 0 <= a < |st| && st[a].line == j;
      assert a < |p|;
      assert p[a] == st[a];
    }
  }

  lemma {:induction false} HoldsPush(st: seq<Entry>, e: Entry, j: nat)
    ensures Holds(st + [e], j) <==> Holds(st, j) || e.line == j
  {
    var w := st + [e];
    if Holds(w, j) {
      var a :| 0 <= a < |w| && w[a].line == j;
      if a < |st| {
        assert st[a] == w[a];
      }
    }
    if Holds(st, j) {
      var a :| 0 <= a < |st| && st[a].line == j;
      assert w[a] == st[a];
    }
    assert w[|st|] == e;
  }

  /** Pushing line k above entries of smaller level keeps the stack ordered. */
  lemma {:induction false} StackedPush(p: seq<Entry>, lv: seq<nat>, k: nat)
    requires k < |lv| && Stacked(p, lv, k)
    requires p != [] ==> p[|p| - 1].level < lv[k]
    ensures Stacked(p + [Entry(lv[k], k)], lv, k + 1)
  {
    var w := p + [Entry(lv[k], k)];
    forall a, b | 0 <= a < b < |w|
      ensures w[a].line < w[b].line && w[a].level < w[b].level
    {
      assert w[a] == p[a];
      if b < |p| {
        assert w[b] == p[b];
      } else if a < |p| - 1 {
        assert p[a].level < p[|p| - 1].level;
      }
    }
  }

  /** The stack after k lines holds lines before k with their levels, both strictly increasing. */
  lemma {:induction false} VisibleStacked(lv: seq<nat>, k: nat)
    requires k <= |lv|
    ensures Stacked(Visible(lv, k), lv, k)
    decreases k
  {
    if k > 0 {
      var v := Visible(lv, k - 1);
      VisibleStacked(lv, k - 1);
      PoppedKeeps(v, lv, k - 1, lv[k - 1]);
      PoppedPrefix(v, lv[k - 1]);
      StackedPush(Popped(v, lv[k - 1]), lv, k - 1);
    }
  }

  /** Line j is on the stack after k lines exactly when every later line up to k has a greater level. */
  lemma {:induction false} VisibleHolds(lv: seq<nat>, k: nat, j: nat)
    requires j < k <= |lv|
    ensures Holds(Visible(lv, k), j) <==> forall i :: j < i < k ==> lv[i] > lv[j]
    decreases k
  {
    var v := Visible(lv, k - 1);
    var p := Popped(v, lv[k - 1]);
    HoldsPush(p, Entry(lv[k - 1], k - 1), j);
    if j < k - 1 {
      VisibleStacked(lv, k - 1);
      HoldsPopped(v, lv, k - 1, lv[k - 1], j);
      VisibleHolds(lv, k - 1, j);
    }
  }

  /** After popping for line k, the stack top is the parent of line k; an empty stack means a root. */
  lemma {:induction false} PoppedTop(lv: seq<nat>, k: nat)
    requires k < |lv|
    ensures var p := Popped(Visible(lv, k), lv[k]);
      && (p == [] <==> ParentOf(lv, k).None?)
      && (p != [] ==> ParentOf(lv, k) == Some(p[|p| - 1].line))
  {
    var v := Visible(lv, k);
    var p := Popped(v, lv[k]);
    VisibleStacked(lv, k);
    PoppedKeeps(v, lv, k, lv[k]);
    PoppedPrefix(v, lv[k]);
    ParentOfSpec(lv, k);
    if ParentOf(lv, k).Some? {
      var j := ParentOf(lv, k).value;
      VisibleHolds(lv, k, j);
      HoldsPopped(v, lv, k, lv[k], j);
      var a :| 0 <= a < |p| && p[a].line == j;
    }
    if p != [] {
      assert lv[p[|p| - 1].line] < lv[k] && p[|p| - 1].line < k;
    }
  }

  // ---------------------------------------------------------------- growing the forest

  /** Depth of the rightmost path of a forest. */
  function RightDepth<T>(f: seq<Tree<T>>): nat
    decreases f
  {
    if f == [] then 0 else 1 + RightDepth(f[|f| - 1].kids)
  }

  /**
   * Pre-order indices of the nodes on the rightmost path of `f`, top down, where `end`
   * is the index just past f's last node: each of them is the root of a subtree that
   * ends the pre-order.
   */
  function Spine<T>(f: seq<Tree<T>>, end: int): (sp: seq<int>)
    ensures |sp| == RightDepth(f)
    decreases f
  {
    if f == [] then [] else [end - Size(f[|f| - 1])] + Spine(f[|f| - 1].kids, end)
  }

  /** `f` with `t` appended as the last child of the node at depth d of its rightmost path. */
  function AddAt<T>(f: seq<Tree<T>>, d: nat, t: Tree<T>): seq<Tree<T>>
    requires d < RightDepth(f)
    decreases f, 0
  {
    f[..|f| - 1] + [Tree(f[|f| - 1].val, AddUnder(f[|f| - 1].kids, d, t))]
  }

  /** The children `kids` of a rightmost-path node with `t` added d levels below them (among them if d is 0). */
  function AddUnder<T>(kids: seq<Tree<T>>, d: nat, t: Tree<T>): seq<Tree<T>>
    requires d <= RightDepth(kids)
    decreases kids, 1
  {
    if d == 0 then kids + [t] else AddAt(kids, d - 1, t)
  }

  /** Sizes, values and parents of a forest whose last tree is `x`. */
  lemma {:induction false} ForestLast<T>(init: seq<Tree<T>>, x: Tree<T>, start: nat, par: Option<nat>)
    ensures SizeF(init + [x]) == SizeF(init) + 1 + SizeF(x.kids)
    ensures ValsF(init + [x]) == ValsF(init) + [x.val] + ValsF(x.kids)
    ensures ParentsF(init + [x], start, par)
      == ParentsF(init, start, par) + [par] + ParentsF(x.kids, start + SizeF(init) + 1, Some(start + SizeF(init)))
  {
    SizeFAppend(init, [x]);
    SizeFOne(x);
    ValsFAppend(init, [x]);
    ValsFOne(x);
    ParentsFAppend(init, [x], start, par);
    assert [x][1..] == [];
  }

  /** The same facts about a non-empty forest, split at its last tree. */
  lemma {:induction false} ForestNonEmpty<T>(f: seq<Tree<T>>, start: nat, par: Option<nat>)
    requires f != []
    ensures SizeF(f) == SizeF(f[..|f| - 1]) + 1 + SizeF(f[|f| - 1].kids)
    ensures ValsF(f) == ValsF(f[..|f| - 1]) + [f[|f| - 1].val] + ValsF(f[|f| - 1].kids)
    ensures ParentsF(f, start, par) == ParentsF(f[..|f| - 1], start, par) + [par]
      + ParentsF(f[|f| - 1].kids, start + SizeF(f[..|f| - 1]) + 1, Some(start + SizeF(f[..|f| - 1])))
  {
    assert f == f[..|f| - 1] + [f[|f| - 1]];
    ForestLast(f[..|f| - 1], f[|f| - 1], start, par);
  }

  /** Adding a leaf under the rightmost path appends it at the end of the pre-order. */
  lemma {:induction false} AddAtVals<T>(f: seq<Tree<T>>, d: nat, x: T)
    requires d < RightDepth(f)
    ensures SizeF(AddAt(f, d, Leaf(x))) == SizeF(f) + 1
    ensures ValsF(AddAt(f, d, Leaf(x))) == ValsF(f) + [x]
    decreases f, 0
  {
    var init, last := f[..|f| - 1], f[|f| - 1];
    ForestNonEmpty(f, 0, None);
    ForestLast(init, Tree(last.val, AddUnder(last.kids, d, Leaf(x))), 0, None);
    AddUnderVals(last.kids, d, x);
  }

  lemma {:induction false} AddUnderVals<T>(kids: seq<Tree<T>>, d: nat, x: T)
    requires d <= RightDepth(kids)
    ensures SizeF(AddUnder(kids, d, Leaf(x))) == SizeF(kids) + 1
    ensures ValsF(AddUnder(kids, d, Leaf(x))) == ValsF(kids) + [x]
    decreases kids, 1
  {
    if d == 0 {
      ForestLast(kids, Leaf(x), 0, None);
    } else {
      AddAtVals(kids, d - 1, x);
    }
  }

  /** The added leaf's parent is p, the rightmost-path node at depth d; no other parent changes. */
  lemma {:induction false} AddAtParents<T>(f: seq<Tree<T>>, d: nat, x: T, start: nat, par: Option<nat>, p: nat)
    requires d < RightDepth(f)
    requires Spine(f, start + SizeF(f))[d] == p
    ensures ParentsF(AddAt(f, d, Leaf(x)), start, par) == ParentsF(f, start, par) + [Some(p)]
    decreases f, 0
  {
    var init, last := f[..|f| - 1], f[|f| - 1];
    var s := start + SizeF(init);
    var end := s + 1 + SizeF(last.kids);
    var t' := Tree(last.val, AddUnder(last.kids, d, Leaf(x)));
    assert ParentsF(t'.kids, s + 1, Some(s)) == ParentsF(last.kids, s + 1, Some(s)) + [Some(p)] by {
      assert start + SizeF(f) == end by {
        ForestNonEmpty(f, start, par);
      }
      SpineLast(f, end, d);
      AddUnderParents(last.kids, d, x, s + 1, s, p);
    }
    assert f == init + [last];
    ParentsLastGrows(init, last, t', start, par, Some(p), s);
  }

  /** Growing the parent list below a forest's last root by q grows the forest's parent list by q. */
  lemma {:induction false} ParentsLastGrows<T>(init: seq<Tree<T>>, t: Tree<T>, t': Tree<T>, start: nat, par: Option<nat>, q: Option<nat>, s: nat)
    requires s == start + SizeF(init)
    requires ParentsF(t'.kids, s + 1, Some(s)) == ParentsF(t.kids, s + 1, Some(s)) + [q]
    ensures ParentsF(init + [t'], start, par) == ParentsF(init + [t], start, par) + [q]
  {
    ForestLast(init, t, start, par);
    ForestLast(init, t', start, par);
    AppendAssoc(ParentsF(init, start, par) + [par], ParentsF(t.kids, s + 1, Some(s)), [q]);
  }

  /** The rightmost path of a forest starts at its last root and goes on down that root's children. */
  lemma {:induction false} SpineLast<T>(f: seq<Tree<T>>, end: int, d: nat)
    requires d < RightDepth(f)
    ensures d == 0 ==> Spine(f, end)[d] == end - 1 - SizeF(f[|f| - 1].kids)
    ensures d > 0 ==> Spine(f, end)[d] == Spine(f[|f| - 1].kids, end)[d - 1]
  {
    assert Spine(f, end) == [end - Size(f[|f| - 1])] + Spine(f[|f| - 1].kids, end);
  }

  lemma {:induction false} AddUnderParents<T>(kids: seq<Tree<T>>, d: nat, x: T, start: nat, up: nat, p: nat)
    requires d <= RightDepth(kids)
    requires d == 0 ==> p == up
    requires d > 0 ==> Spine(kids, start + SizeF(kids))[d - 1] == p
    ensures ParentsF(AddUnder(kids, d, Leaf(x)), start, Some(up)) == ParentsF(kids, start, Some(up)) + [Some(p)]
    decreases kids, 1
  {
    if d == 0 {
      ForestLast(kids, Leaf(x), start, Some(up));
      assert ParentsF(Leaf(x).kids, start + SizeF(kids) + 1, Some(start + SizeF(kids))) == [];
    } else {
      AddAtParents(kids, d - 1, x, start, Some(up), p);
    }
  }

  /** Adding at depth d cuts the rightmost path below d and extends it with the new leaf. */
  lemma {:induction false} AddAtSpine<T>(f: seq<Tree<T>>, d: nat, x: T, end: int)
    requires d < RightDepth(f)
    ensures Spine(AddAt(f, d, Leaf(x)), end + 1) == Spine(f, end)[..d + 1] + [end]
    decreases f, 0
  {
    var last := f[|f| - 1];
    var g := AddAt(f, d, Leaf(x));
    assert g[|g| - 1] == Tree(last.val, AddUnder(last.kids, d, Leaf(x)));
    AddUnderSpine(last.kids, d, x, end);
    AddUnderVals(last.kids, d, x);
  }

  lemma {:induction false} AddUnderSpine<T>(kids: seq<Tree<T>>, d: nat, x: T, end: int)
    requires d <= RightDepth(kids)
    ensures Spine(AddUnder(kids, d, Leaf(x)), end + 1) == Spine(kids, end)[..d] + [end]
    decreases kids, 1
  {
    if d == 0 {
      var g := kids + [Leaf(x)];
      assert g[|g| - 1] == Leaf(x);
      assert Size(Leaf(x)) == 1;
      assert Spine(Leaf(x).kids, end + 1) == [];
    } else {
      AddAtSpine(kids, d - 1, x, end);
    }
  }

  /** Exactly the empty forest has no nodes. */
  lemma {:induction false} SizeFZero<T>(f: seq<Tree<T>>)
    ensures SizeF(f) == 0 <==> f == []
  {
  }

  /** Appending a leaf as a new root. */
  lemma {:induction false} AppendRoot<T>(f: seq<Tree<T>>, x: T)
    ensures ValsF(f + [Leaf(x)]) == ValsF(f) + [x]
    ensures SizeF(f + [Leaf(x)]) == SizeF(f) + 1
    ensures ParentsF(f + [Leaf(x)], 0, None) == ParentsF(f, 0, None) + [None]
    ensures Spine(f + [Leaf(x)], SizeF(f) + 1) == [SizeF(f)]
  {
    ForestLast(f, Leaf(x), 0, None);
    var g := f + [Leaf(x)];
    assert g[|g| - 1] == Leaf(x);
  }

  // ---------------------------------------------------------------- the importer

  /**
   * The importer's state after the first k lines: the forest holds their nodes in line
   * order with their parents, and the stack is `Visible` and lists the forest's
   * rightmost path.
   */
  ghost predicate Built(result: Forest, stack: seq<Entry>, lines: seq<string>, ids: nat -> string, k: nat) {
    && BuiltNodes(result, lines, ids, k)
    && stack == Visible(Levels(lines), k)
    && SpineLists(result, stack, k)
  }

  /** The forest holds the nodes of the first k lines in line order, with their parents. */
  ghost predicate BuiltNodes(result: Forest, lines: seq<string>, ids: nat -> string, k: nat) {
    && k <= |lines|
    && SizeF(result) == k
    && ValsF(result) == Expected(lines, ids, k)
    && Parents(result) == ParentList(Levels(lines), k)
  }

  /** The stack lists the rightmost path of a forest of k nodes, top down. */
  ghost predicate SpineLists(result: Forest, stack: seq<Entry>, k: nat) {
    && |Spine(result, k)| == |stack|
    && (forall a :: 0 <= a < |stack| ==> Spine(result, k)[a] == stack[a].line)
  }

  /** A line without a parent becomes a new root, and the stack restarts at it. */
  lemma {:induction false} RootStep(result: Forest, stack: seq<Entry>, lines: seq<string>, ids: nat -> string, k: nat, node: Info)
    requires Built(result, stack, lines, ids, k) && k < |lines|
    requires ParentOf(Levels(lines), k).None? && node == InfoAt(lines, ids, k)
    ensures Built(result + [Leaf(node)], [Entry(Levels(lines)[k], k)], lines, ids, k + 1)
  {
    var lv := Levels(lines);
    PoppedTop(lv, k);
    BuiltNext(lines, ids, k);
    assert Visible(lv, k + 1) == [Entry(lv[k], k)];
    RootNodes(result, lines, ids, k, node);
    RootSpine(result, node, lv[k], k);
  }

  lemma {:induction false} RootNodes(result: Forest, lines: seq<string>, ids: nat -> string, k: nat, node: Info)
    requires BuiltNodes(result, lines, ids, k) && k < |lines|
    requires ParentOf(Levels(lines), k).None? && node == InfoAt(lines, ids, k)
    ensures BuiltNodes(result + [Leaf(node)], lines, ids, k + 1)
  {
    AppendRoot(result, node);
    BuiltNext(lines, ids, k);
  }

  lemma {:induction false} RootSpine(result: Forest, node: Info, level: nat, k: nat)
    requires SizeF(result) == k
    ensures SpineLists(result + [Leaf(node)], [Entry(level, k)], k + 1)
  {
    AppendRoot(result, node);
    var g := result + [Leaf(node)];
    assert Spine(g, SizeF(result) + 1) == [SizeF(result)];
    assert Spine(g, k + 1) == [k];
  }

  /** What line k adds: its node, its parent, and its entry pushed on the popped stack. */
  lemma {:induction false} BuiltNext(lines: seq<string>, ids: nat -> string, k: nat)
    requires k < |lines|
    ensures Expected(lines, ids, k + 1) == Expected(lines, ids, k) + [InfoAt(lines, ids, k)]
    ensures ParentList(Levels(lines), k + 1) == ParentList(Levels(lines), k) + [ParentOf(Levels(lines), k)]
    ensures Visible(Levels(lines), k + 1) == Popped(Visible(Levels(lines), k), Levels(lines)[k]) + [Entry(Levels(lines)[k], k)]
  {
  }

  /** A line with a parent is added under the top of the popped stack `p`, and pushed. */
  lemma {:induction false} AttachStep(result: Forest, stack: seq<Entry>, p: seq<Entry>, lines: seq<string>, ids: nat -> string, k: nat, node: Info)
    requires Built(result, stack, lines, ids, k) && k < |lines|
    requires p == Popped(stack, Levels(lines)[k]) && p != [] && node == InfoAt(lines, ids, k)
    ensures |p| - 1 < RightDepth(result)
    ensures Built(AddAt(result, |p| - 1, Leaf(node)), p + [Entry(Levels(lines)[k], k)], lines, ids, k + 1)
  {
    var lv := Levels(lines);
    var d := |p| - 1;
    PoppedTop(lv, k);
    PoppedPrefix(stack, lv[k]);
    assert p[d] == stack[d];
    assert Spine(result, k)[d] == p[d].line;
    BuiltNext(lines, ids, k);
    AttachNodes(result, lines, ids, k, node, d, p[d].line);
    AttachSpine(result, stack, p, node, lv[k], k);
  }

  lemma {:induction false} AttachNodes(result: Forest, lines: seq<string>, ids: nat -> string, k: nat, node: Info, d: nat, q: nat)
    requires BuiltNodes(result, lines, ids, k) && k < |lines| && node == InfoAt(lines, ids, k)
    requires d < RightDepth(result) && Spine(result, k)[d] == q && ParentOf(Levels(lines), k) == Some(q)
    ensures BuiltNodes(AddAt(result, d, Leaf(node)), lines, ids, k + 1)
  {
    AddAtVals(result, d, node);
    assert Spine(result, 0 + SizeF(result))[d] == q;
    AddAtParents(result, d, node, 0, None, q);
    BuiltNext(lines, ids, k);
  }

  lemma {:induction false} AttachSpine(result: Forest, stack: seq<Entry>, p: seq<Entry>, node: Info, level: nat, k: nat)
    requires SpineLists(result, stack, k) && p != [] && |p| <= |stack| && p == stack[..|p|]
    ensures |p| - 1 < RightDepth(result)
    ensures SpineLists(AddAt(result, |p| - 1, Leaf(node)), p + [Entry(level, k)], k + 1)
  {
    var d := |p| - 1;
    AddAtSpine(result, d, node, k);
    var g := AddAt(result, d, Leaf(node));
    var w := p + [Entry(level, k)];
    forall a | 0 <= a < |w|
      ensures Spine(g, k + 1)[a] == w[a].line
    {
      if a < |p| {
        assert w[a] == stack[a];
      }
    }
  }

  /** Pops the stack until its top has a level below `level` (or it is empty). */
  method PopAbove(stack: seq<Entry>, level: nat) returns (st: seq<Entry>)
    ensures st == Popped(stack, level)
  {
    st := stack;
    while |st| > 0 && st[|st| - 1].level >= level
      invariant Popped(st, level) == Popped(stack, level)
      decreases |st|
    {
      st := st[..|st| - 1];
    }
  }

  /**
   * `parseIndentedText`. One node per non-blank line, in pre-order in line order,
   * styled by its position; each line's parent is the nearest earlier line with a
   * smaller level, and lines without one are roots.
   */
  method ParseIndentedText(text: string, ids: nat -> string) returns (result: Forest)
    ensures ValsF(result) == Expected(Lines(text), ids, |Lines(text)|)
    ensures Parents(result) == ParentList(Levels(Lines(text)), |Lines(text)|)
    ensures SizeF(result) == |Lines(text)|
    ensures result == [] <==> Lines(text) == []
  {
    var lines := Lines(text);
    if |lines| == 0 {
      return [];
    }
    result := [];
    var stack: seq<Entry> := [];
    var k := 0;
    while k < |lines|
      invariant Built(result, stack, lines, ids, k)
    {
      result, stack := ImportLine(lines, ids, k, result, stack);
      k := k + 1;
    }
    SizeFZero(result);
  }

  /**
   * The importer's loop body for line k: its level from its leading tabs or spaces, the
   * stack popped to its parent, and its node added as a root or under that parent.
   */
  method ImportLine(lines: seq<string>, ids: nat -> string, k: nat, result: Forest, stack: seq<Entry>)
    returns (result': Forest, stack': seq<Entry>)
    requires k < |lines| && Built(result, stack, lines, ids, k)
    ensures Built(result', stack', lines, ids, k + 1)
  {
    ghost var lv := Levels(lines);
    var line := lines[k];
    var level := 0;
    var leadingTabs := LeadingTabs(line);
    if leadingTabs > 0 {
      level := leadingTabs;
    } else {
      var leadingSpaces := LeadingSpaces(line);
      level := leadingSpaces / 2;
    }
    assert level == lv[k];
    var node := Styled(ids(k), line, LeafLook);
    PoppedTop(lv, k);
    if level == 0 {
      PoppedZero(stack);
      node := node.(color := RootLook.color, textColor := RootLook.textColor,
        fontSize := RootLook.fontSize, fontWeight := RootLook.fontWeight);
      assert node == InfoAt(lines, ids, k);
      RootStep(result, stack, lines, ids, k, node);
      result' := result + [Leaf(node)];
      stack' := [Entry(level, k)];
    } else {
      var popped := PopAbove(stack, level);
      if |popped| > 0 {
        if level == 1 {
          node := node.(color := BranchLook.color, textColor := BranchLook.textColor,
            fontSize := BranchLook.fontSize, fontWeight := BranchLook.fontWeight);
        }
        assert node == InfoAt(lines, ids, k);
        AttachStep(result, stack, popped, lines, ids, k, node);
        result' := AddAt(result, |popped| - 1, Leaf(node));
        stack' := popped + [Entry(level, k)];
      } else {
        node := node.(color := RootLook.color, textColor := RootLook.textColor,
          fontSize := RootLook.fontSize, fontWeight := RootLook.fontWeight);
        assert node == InfoAt(lines, ids, k);
        RootStep(result, stack, lines, ids, k, node);
        result' := result + [Leaf(node)];
        stack' := [Entry(level, k)];
      }
    }
  }

  /**
   * What the importer makes of line i: a node with the line's id and trimmed text, which
   * is not empty; it is a root, in root colours, exactly when no earlier line has a
   * smaller level (always for a level-0 line), and otherwise it hangs under the nearest
   * such line, in branch colours at level 1 and in leaf colours deeper down.
   */
  lemma {:induction false} LineNode(text: string, ids: nat -> string, i: nat)
    requires i < |Lines(text)|
    ensures Expected(Lines(text), ids, |Lines(text)|)[i].id == ids(i)
    ensures Expected(Lines(text), ids, |Lines(text)|)[i].text == Trim(Lines(text)[i]) != ""
    ensures ParentList(Levels(Lines(text)), |Lines(text)|)[i].None? <==>
      forall m :: 0 <= m < i ==> Levels(Lines(text))[m] >= Levels(Lines(text))[i]
    ensures Levels(Lines(text))[i] == 0 ==> ParentList(Levels(Lines(text)), |Lines(text)|)[i].None?
    ensures ParentList(Levels(Lines(text)), |Lines(text)|)[i].Some? ==>
      var p := ParentList(Levels(Lines(text)), |Lines(text)|)[i].value;
      && p < i && Levels(Lines(text))[p] < Levels(Lines(text))[i]
      && forall m :: p < m < i ==> Levels(Lines(text))[m] >= Levels(Lines(text))[i]
    ensures ParentList(Levels(Lines(text)), |Lines(text)|)[i].None? ==>
      var n := Expected(Lines(text), ids, |Lines(text)|)[i];
      n.color == "#2563EB" && n.textColor == "#FFFFFF" && n.fontSize == 24 && n.fontWeight == "bold"
    ensures ParentList(Levels(Lines(text)), |Lines(text)|)[i].Some? && Levels(Lines(text))[i] == 1 ==>
      var n := Expected(Lines(text), ids, |Lines(text)|)[i];
      n.color == "#DBEAFE" && n.textColor == "#1E293B" && n.fontSize == 20 && n.fontWeight == "500"
    ensures ParentList(Levels(Lines(text)), |Lines(text)|)[i].Some? && Levels(Lines(text))[i] > 1 ==>
      var n := Expected(Lines(text), ids, |Lines(text)|)[i];
      n.color == "#F8FAFC" && n.textColor == "#1E293B" && n.fontSize == 18
  {
    var lines := Lines(text);
    ExpectedAt(lines, ids, |lines|, i);
    ParentListAt(Levels(lines), |lines|, i);
    ParentOfSpec(Levels(lines), i);
    NonBlankSpec(Split(text, '\n'));
    assert lines[i] in lines;
  }
}
