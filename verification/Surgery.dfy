/** The pointer stores behind the tree edits (parts of replace_extent,
    remove_extent and replace in incont.c). */
module Surgery {
  import opened Sequences
  import opened Extents
  import opened Trees
  import opened Edits
  import opened Rebalancing

  lemma PullUpFacts(t: Tree, x: Extent, top: Slot)
    requires CanSplice(t, x) && top.RootOf?
    ensures x in Elems(t) && Distinct(t)
    ensures var c := Root(OnlyChild(t, x)); c != null ==> c in Elems(t) && c != x
    ensures SlotIn(t, x, top) == top
      || ((SlotIn(t, x, top).LeftOf? || SlotIn(t, x, top).RightOf?) && SlotIn(t, x, top).e in Elems(t))
    ensures Owner(SlotIn(t, x, top)) != x
  {
    hide Sub, Distinct, SlotIn;
    SpliceFits(t, x);
    SlotOwner(t, x, top);
    OwnerOutside(t, x, top);
    KidSlots(t, x, top);
  }

  /** c, the only child of x, takes the slot of x. */
  method PullUp(inode: Inode, ghost es: set<Extent>, ghost t: Tree, x: Extent, c: Extent?)
    requires Wired(inode, t) && Elems(t) == es && CanSplice(t, x) && c == Root(OnlyChild(t, x))
    modifies inode`flayout, es`left, es`right, es`parent, es`pivot
    ensures Wired(inode, Spliced(t, x)) && Elems(Spliced(t, x)) == es - {x}
    ensures x.parent == old(x.parent) && x.pivot == old(x.pivot)
    ensures forall y <- es :: y.left == if old(x.pivot) == LeftOf(y) then c else old(y.left)
    ensures forall y <- es :: y.right == if old(x.pivot) == RightOf(y) then c else old(y.right)
  {
    hide Elems, Sub, LeftSub, RightSub, LeftKid, RightKid, SlotIn, Distinct, Graft, CanSplice, OnlyChild, Spliced;
    SpliceShape(t, x, RootOf(inode));
    PullUpFacts(t, x, RootOf(inode));
    assert LinksOk(t, x, RootOf(inode));
    if c != null {
      c.parent := x.parent;
      c.pivot := x.pivot;
    }
    SetSlot(x.pivot, c);
    forall y | y in es && y != x ensures LinksOk(Spliced(t, x), y, RootOf(inode)) {
      assert old(LinksOk(t, y, RootOf(inode)));
      SpliceLinks(t, x, y, RootOf(inode));
    }
  }

  lemma SubstituteFacts(t: Tree, o: Extent, top: Slot)
    requires Distinct(t) && o in Elems(t) && top.RootOf?
    ensures var l := LeftKid(t, o); l != null ==> l in Elems(t) && l != o
    ensures var r := RightKid(t, o); r != null ==> r in Elems(t) && r != o && r != LeftKid(t, o)
    ensures SlotIn(t, o, top) == top
      || ((SlotIn(t, o, top).LeftOf? || SlotIn(t, o, top).RightOf?) && SlotIn(t, o, top).e in Elems(t))
    ensures Owner(SlotIn(t, o, top)) != o
  {
    SlotOwner(t, o, top);
    OwnerOutside(t, o, top);
    KidSlots(t, o, top);
  }

  /** n takes the place of o: its slot, its children and its depth. */
  method Substitute(inode: Inode, ghost es: set<Extent>, ghost t: Tree, o: Extent, n: Extent)
    requires Wired(inode, t) && Elems(t) == es && o in es && n !in es
    modifies inode`flayout, es`left, es`right, es`parent, es`pivot
    modifies {n}`left, {n}`right, {n}`parent, {n}`pivot, {n}`depth
    ensures Wired(inode, Substituted(t, o, n)) && Elems(Substituted(t, o, n)) == es - {o} + {n}
    ensures n.depth == old(o.depth) && n.left == old(o.left) && n.right == old(o.right) && n.parent == old(o.parent)
    ensures forall y <- es :: y.left == if old(o.pivot) == LeftOf(y) then n else old(y.left)
    ensures forall y <- es :: y.right == if old(o.pivot) == RightOf(y) then n else old(y.right)
  {
    hide Elems, Sub, LeftSub, RightSub, LeftKid, RightKid, SlotIn, Distinct, Graft, Substituted;
    SubstituteShape(t, o, n, RootOf(inode));
    SubstituteFacts(t, o, RootOf(inode));
    assert LinksOk(t, o, RootOf(inode));
    n.depth := o.depth;
    TakePlace(n, o, inode, es);
    Adopt(n, o.left, o.right, es);
    SubstituteLinks(t, o, n, n, RootOf(inode));
    forall y | y in es && y != o ensures LinksOk(Substituted(t, o, n), y, RootOf(inode)) {
      assert old(LinksOk(t, y, RootOf(inode)));
      SubstituteLinks(t, o, n, y, RootOf(inode));
    }
  }

  /** x becomes a leaf under p. */
  method Attach(inode: Inode, ghost es: set<Extent>, ghost t: Tree, p: Extent, x: Extent, right: bool)
    requires Wired(inode, t) && Elems(t) == es && CanAttach(t, p, x, right)
    requires x.left == null && x.right == null
    modifies {p}`left, {p}`right, {x}`parent, {x}`pivot
    ensures Wired(inode, Attached(t, p, x, right)) && Elems(Attached(t, p, x, right)) == es + {x}
    ensures x.parent == p
    ensures if right then p.right == x && p.left == old(p.left) else p.left == x && p.right == old(p.right)
  {
    hide Elems, Sub, LeftSub, RightSub, LeftKid, RightKid, SlotIn, Distinct, Graft, Attached, Hung;
    AttachShape(t, p, x, right);
    hide CanAttach;
    if right {
      p.right := x;
      x.parent := p;
      x.pivot := RightOf(x.parent);
    } else {
      p.left := x;
      x.parent := p;
      x.pivot := LeftOf(x.parent);
    }
    AttachLinks(t, p, x, right, x, RootOf(inode));
    forall y | y in es ensures LinksOk(Attached(t, p, x, right), y, RootOf(inode)) {
      assert old(LinksOk(t, y, RootOf(inode)));
      AttachLinks(t, p, x, right, y, RootOf(inode));
    }
  }

  // ---- depths

  /** x's slot is the child pointer that holds x, and only that one. */
  lemma HolderOf(inode: Inode, es: set<Extent>, t: Tree, x: Extent, y: Extent)
    requires Wired(inode, t) && Elems(t) == es && x in es && y in es
    ensures (y.left == x <==> x.pivot == LeftOf(y)) && (y.right == x <==> x.pivot == RightOf(y))
    ensures y.left == x || y.right == x ==> y == x.parent && y != x
    ensures x.parent == y ==> y.left == x || y.right == x
    ensures x.parent != null ==> x.parent in es
  {
    hide Elems, Sub, LeftSub, RightSub, LeftKid, RightKid, SlotIn, Level, Distinct;
    assert LinksOk(t, x, RootOf(inode)) && LinksOk(t, y, RootOf(inode));
    SlotOwner(t, x, RootOf(inode));
    KidSlots(t, y, RootOf(inode));
  }

  /** What HolderOf says of every extent. */
  ghost predicate Held(es: set<Extent>, x: Extent)
    reads es`left, es`right, x`pivot, x`parent, (if x.parent == null then {} else {x.parent})`left,
      (if x.parent == null then {} else {x.parent})`right
  {
    && (x.parent != null ==> x.parent in es && (x.parent.left == x || x.parent.right == x))
    && forall y <- es :: (y.left == x <==> x.pivot == LeftOf(y)) && (y.right == x <==> x.pivot == RightOf(y))
        && (y.left == x || y.right == x ==> y == x.parent && y != x)
  }

  lemma HeldBy(inode: Inode, es: set<Extent>, t: Tree, x: Extent)
    requires Wired(inode, t) && Elems(t) == es && x in es
    ensures Held(es, x)
  {
    hide Wired, Elems;
    forall y <- es ensures (y.left == x <==> x.pivot == LeftOf(y)) && (y.right == x <==> x.pivot == RightOf(y))
        && (y.left == x || y.right == x ==> y == x.parent && y != x) {
      HolderOf(inode, es, t, x, y);
    }
    HolderOf(inode, es, t, x, x);
    if x.parent != null { HolderOf(inode, es, t, x, x.parent); }
  }

  /** The parent may be off by one. */
  twostate lemma PullUpAbove(es: set<Extent>, new x: Extent, new c: Extent?, new p: Extent)
    requires x in es && p == old(x.parent) && old(DepthOk(x, es) && DepthOk(p, es) && Held(es, x))
    requires c == old(if x.left != null then x.left else x.right) && c != x && old(x.left == null || x.right == null)
    requires p.left == if old(x.pivot) == LeftOf(p) then c else old(p.left)
    requires p.right == if old(x.pivot) == RightOf(p) then c else old(p.right)
    requires forall y <- es :: y.depth == old(y.depth) >= 1
    ensures p in es - {x} && OffByOne(p, es - {x}, old(Depth(p.left)), old(Depth(p.right)))
  {
  }

  twostate lemma PullUpDepths(es: set<Extent>, new x: Extent, new c: Extent?)
    requires x in es && old(DepthsOk(es, null) && Held(es, x))
    requires c == old(if x.left != null then x.left else x.right) && c != x && old(x.left == null || x.right == null)
    requires forall y <- es :: y.left == if old(x.pivot) == LeftOf(y) then c else old(y.left)
    requires forall y <- es :: y.right == if old(x.pivot) == RightOf(y) then c else old(y.right)
    requires forall y <- es :: y.depth == old(y.depth)
    ensures DepthsOk(es - {x}, old(x.parent))
    ensures var p := old(x.parent); p != null ==>
      p in es - {x} && OffByOne(p, es - {x}, old(Depth(p.left)), old(Depth(p.right)))
  {
    hide Abs;
    assert old(DepthOk(x, es));
    forall y <- es - {x} ensures y.depth >= 1 && (y != old(x.parent) ==> DepthOk(y, es - {x})) {
      assert old(DepthOk(y, es));
    }
    var p := old(x.parent);
    if p != null { PullUpAbove(es, x, c, p); }
  }

  /** The children of y keep their depths when n stands in for o. */
  twostate lemma SubstituteDepthAt(es: set<Extent>, new o: Extent, new n: Extent, new y: Extent)
    requires o in es && n !in es && old(Held(es, o)) && y in es && y != o
    requires n.depth == old(o.depth) && forall z <- es :: z.depth == old(z.depth)
    requires y.left == if old(o.pivot) == LeftOf(y) then n else old(y.left)
    requires y.right == if old(o.pivot) == RightOf(y) then n else old(y.right)
    requires (old(y.left) == null || old(y.left) in es) && (old(y.right) == null || old(y.right) in es)
    ensures Depth(y.left) == old(Depth(y.left)) && Depth(y.right) == old(Depth(y.right)) && y.depth == old(y.depth)
    ensures (y.left == null || y.left in es - {o} + {n}) && (y.right == null || y.right in es - {o} + {n})
  {
  }

  twostate lemma SubstituteDepthOk(es: set<Extent>, new o: Extent, new n: Extent, new y: Extent, new hole: Extent?)
    requires o in es && n !in es && (hole != null ==> hole in es)
    requires old(DepthsOk(es, hole) && Held(es, o)) && y in es - {o} + {n}
    requires old(o.left) != o && old(o.right) != o
    requires n.depth == old(o.depth) && n.left == old(o.left) && n.right == old(o.right)
    requires forall y <- es :: y.left == if old(o.pivot) == LeftOf(y) then n else old(y.left)
    requires forall y <- es :: y.right == if old(o.pivot) == RightOf(y) then n else old(y.right)
    requires forall y <- es :: y.depth == old(y.depth)
    ensures y.depth >= 1 && (y != (if hole == o then n else hole) ==> DepthOk(y, es - {o} + {n}))
  {
    assert o != hole ==> old(DepthOk(o, es));
    if y != n {
      assert y in es && (y != hole ==> old(DepthOk(y, es)));
      if y != hole { SubstituteDepthAt(es, o, n, y); }
    }
  }

  twostate lemma SubstituteDepths(es: set<Extent>, new o: Extent, new n: Extent, new hole: Extent?, new hl: int,
      new hr: int)
    requires o in es && n !in es && (hole != null ==> hole in es && old(OffByOne(hole, es, hl, hr)))
    requires old(DepthsOk(es, hole) && Held(es, o))
    requires old(o.left) != o && old(o.right) != o
    requires n.depth == old(o.depth) && n.left == old(o.left) && n.right == old(o.right)
    requires forall y <- es :: y.left == if old(o.pivot) == LeftOf(y) then n else old(y.left)
    requires forall y <- es :: y.right == if old(o.pivot) == RightOf(y) then n else old(y.right)
    requires forall y <- es :: y.depth == old(y.depth)
    ensures var h := if hole == o then n else hole;
      DepthsOk(es - {o} + {n}, h) && (h != null ==> OffByOne(h, es - {o} + {n}, hl, hr))
  {
    var es', h := es - {o} + {n}, if hole == o then n else hole;
    forall y <- es' ensures y.depth >= 1 && (y != h ==> DepthOk(y, es')) {
      SubstituteDepthOk(es, o, n, y, hole);
    }
    if hole != null && hole != o { SubstituteDepthAt(es, o, n, hole); }
  }

  twostate lemma AttachDepths(es: set<Extent>, new p: Extent, new x: Extent, new right: bool)
    requires p in es && x !in es && old(DepthsOk(es, null))
    requires old(if right then p.right == null else p.left == null)
    requires if right then p.right == x && p.left == old(p.left) else p.left == x && p.right == old(p.right)
    requires forall y <- es :: y.depth == old(y.depth) && (y != p ==> y.left == old(y.left) && y.right == old(y.right))
    requires x.depth == 1 && x.left == null && x.right == null
    ensures DepthsOk(es + {x}, p) && OffByOne(p, es + {x}, old(Depth(p.left)), old(Depth(p.right)))
  {
    forall y <- es + {x} ensures y.depth >= 1 && (y != p ==> DepthOk(y, es + {x})) {
      if y != x { assert old(DepthOk(y, es)); }
    }
    assert old(DepthOk(p, es));
  }

  // ---- removal from the tree

  /** x, which has at most one child c, leaves the tree; its parent may be off by one. */
  method SpliceOut(inode: Inode, ghost es: set<Extent>, ghost t: Tree, x: Extent, c: Extent?)
    returns (ghost g: Tree, ghost hl: int, ghost hr: int)
    requires Wired(inode, t) && Elems(t) == es && x in es && DepthsOk(es, null)
    requires (x.left == null || x.right == null) && c == if x.left != null then x.left else x.right
    modifies inode`flayout, es`left, es`right, es`parent, es`pivot
    ensures Wired(inode, g) && Elems(g) == es - {x} && Inorder(g) == Without(Inorder(t), Rank(t, x))
    ensures x.parent == old(x.parent) && DepthsOk(es - {x}, x.parent)
    ensures x.parent != null ==> x.parent in es - {x} && OffByOne(x.parent, es - {x}, hl, hr)
  {
    hide Elems, Sub, LeftSub, RightSub, SlotIn, Distinct, Graft, Spliced;
    assert LinksOk(t, x, RootOf(inode));
    assert CanSplice(t, x) && c == Root(OnlyChild(t, x));
    HeldBy(inode, es, t, x);
    PullUpFacts(t, x, RootOf(inode));
    hide Inorder, OnlyChild, CanSplice, LeftKid, RightKid;
    ghost var p := x.parent;
    if p != null { hl, hr := Depth(p.left), Depth(p.right); } else { hl, hr := 0, 0; }
    g := Spliced(t, x);
    SpliceOrder(t, x);
    hide Wired, Rank, Without;
    PullUp(inode, es, t, x, c);
    PullUpDepths(es, x, c);
  }

  lemma BelowRoot(t: Tree, x: Extent, a: Extent)
    requires Distinct(t) && x in Elems(t) && a in Elems(Sub(t, x)) && a != x
    ensures a != Root(t)
  {
    SubIn(t, x);
    if a == Root(t) { assert x in Elems(t.l) || x in Elems(t.r); SubIn(if x in Elems(t.l) then t.l else t.r, x); }
  }

  /** The predecessor of an extent with two children. */
  lemma InnerFacts(inode: Inode, es: set<Extent>, t: Tree, target: Extent)
    requires Wired(inode, t) && Elems(t) == es && target in es && target.left != null && target.right != null
    requires Rank(t, target) < |Inorder(t)|
    requires 0 < Rank(t, target) ==> target.prev == Inorder(t)[Rank(t, target) - 1]
    ensures Distinct(t) && LeftSub(t, target).Node?
    ensures var a := target.prev;
      a != null && a in es && a != target && a.right == null && a.parent != null && a.parent in es
    ensures target.left != target && target.right != target
  {
    hide Elems, Sub, SlotIn, Distinct, Inorder, Rank;
    assert LinksOk(t, target, RootOf(inode));
    Predecessor(t, target);
    KidSlots(t, target, RootOf(inode));
    var a := target.prev;
    assert LinksOk(t, a, RootOf(inode));
    SlotOwner(t, a, RootOf(inode));
    BelowRoot(t, target, a);
  }

  lemma WiredDistinct(inode: Inode, t: Tree)
    requires Wired(inode, t)
    ensures Distinct(t)
  {
  }

  lemma OutAndIn<T>(s: set<T>, a: T, x: T)
    requires a in s && a != x
    ensures s - {a} - {x} + {a} == s - {x}
  {
  }

  /** Splicing out the predecessor and substituting it for x drops x. */
  lemma InnerOrder(t: Tree, x: Extent, a: Extent, t1: Tree)
    requires Distinct(t) && x in Elems(t) && a in Elems(t) && LeftSub(t, x).Node? && Rank(t, x) < |Inorder(t)|
    requires 0 < Rank(t, x) ==> a == Inorder(t)[Rank(t, x) - 1]
    requires Distinct(t1) && x in Elems(t1) && Inorder(t1) == Without(Inorder(t), Rank(t, a))
    ensures Inorder(Substituted(t1, x, a)) == Without(Inorder(t), Rank(t, x))
  {
    hide Elems, Sub, SlotIn, Distinct, Graft, Inorder, Rank, Without;
    Predecessor(t, x);
    RankIs(t, x);
    DropViaPredecessor(Inorder(t), Rank(t, x));
    RankUnique(t1, x, Rank(t, x) - 1);
    SubstituteOrder(t1, x, a);
  }

  /** An extent with two children is replaced by its predecessor. */
  method RemoveInner(inode: Inode, ghost es: set<Extent>, ghost t: Tree, target: Extent)
    returns (ghost g: Tree, rebe: Extent?, ghost hl: int, ghost hr: int)
    requires Wired(inode, t) && Elems(t) == es && target in es && DepthsOk(es, null)
    requires Rank(t, target) < |Inorder(t)|
    requires 0 < Rank(t, target) ==> target.prev == Inorder(t)[Rank(t, target) - 1]
    requires target.left != null && target.right != null
    modifies inode`flayout, es`left, es`right, es`parent, es`pivot, es`depth
    ensures Wired(inode, g) && Elems(g) == es - {target} && Inorder(g) == Without(Inorder(t), Rank(t, target))
    ensures DepthsOk(es - {target}, rebe)
    ensures rebe != null && rebe in es - {target} && OffByOne(rebe, es - {target}, hl, hr)
  {
    hide Wired, DepthsOk, Elems, LeftSub, Distinct, Substituted, Inorder, Rank, Without;
    InnerFacts(inode, es, t, target);
    var alte := target.prev;
    assert alte.right == null;
    rebe := alte.parent;
    ghost var t1;
    t1, hl, hr := SpliceOut(inode, es, t, alte, alte.left);
    HeldBy(inode, es - {alte}, t1, target);
    WiredDistinct(inode, t1);
    label before:
    Substitute(inode, es - {alte}, t1, target, alte);
    SubstituteDepths@before(es - {alte}, target, alte, rebe, hl, hr);
    if rebe == target {
      rebe := alte;
    }
    g := Substituted(t1, target, alte);
    OutAndIn(es, alte, target);
    InnerOrder(t, target, alte, t1);
  }

  /** The tree part of remove_extent. */
  method RemoveFromTree(inode: Inode, ghost es: set<Extent>, ghost t: Tree, target: Extent) returns (ghost g: Tree)
    requires Wired(inode, t) && Elems(t) == es && target in es && DepthsOk(es, null)
    requires Rank(t, target) < |Inorder(t)|
    requires 0 < Rank(t, target) ==> target.prev == Inorder(t)[Rank(t, target) - 1]
    modifies inode`flayout, es`left, es`right, es`parent, es`pivot, es`depth
    ensures Wired(inode, g) && Elems(g) == es - {target} && Inorder(g) == Without(Inorder(t), Rank(t, target))
    ensures DepthsOk(es - {target}, null)
  {
    var alte: Extent?, rebe: Extent? := null, null;
    ghost var hl, hr;
    if target.left != null && target.right != null {
      g, rebe, hl, hr := RemoveInner(inode, es, t, target);
    } else {
      if target.left != null && target.right == null {
        alte := target.left;
      } else if target.left == null && target.right != null {
        alte := target.right;
      }
      rebe := target.parent;
      g, hl, hr := SpliceOut(inode, es, t, target, alte);
    }
    g := Rebalance(inode, es - {target}, g, rebe, hl, hr);
  }
}
