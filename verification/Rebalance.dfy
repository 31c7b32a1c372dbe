/** The extent tree on the heap and its rebalancing (incont.c, rebalance). */
module Rebalancing {
  import opened Extents
  import opened Trees

  /** The four link fields of x agree with the shape t held by `top`. */
  ghost predicate LinksOk(t: Tree, x: Extent, top: Slot)
    reads x`left, x`right, x`parent, x`pivot
  {
    && x.left == LeftKid(t, x) && x.right == RightKid(t, x)
    && x.pivot == SlotIn(t, x, top) && x.parent == Owner(SlotIn(t, x, top))
  }

  /** The pointers under inode's root form exactly the tree t. */
  ghost predicate Wired(inode: Inode, t: Tree)
    reads inode`flayout, Elems(t)`left, Elems(t)`right, Elems(t)`parent, Elems(t)`pivot
  {
    && inode.flayout == Root(t)
    && Distinct(t)
    && forall x | x in Elems(t) :: LinksOk(t, x, RootOf(inode))
  }

  function Depth(x: Extent?): int
    reads (if x == null then {} else {x})`depth
  {
    if x == null then 0 else x.depth
  }

  function Max(a: int, b: int): int { if a > b then a else b }
  function Abs(a: int): int { if a < 0 then -a else a }

  /** check_extent's depth and balance tests for one extent among es. */
  ghost predicate DepthOk(x: Extent, es: set<Extent>)
    reads x`left, x`right, x`depth, es`depth
  {
    && (x.left == null || x.left in es) && (x.right == null || x.right in es)
    && x.depth == Max(Depth(x.left), Depth(x.right)) + 1
    && Abs(Depth(x.left) - Depth(x.right)) < 2
  }

  /** Every extent but `hole` passes the depth tests. */
  ghost predicate DepthsOk(es: set<Extent>, hole: Extent?)
    reads es`left, es`right, es`depth
  {
    forall x | x in es :: x.depth >= 1 && (x != hole ==> DepthOk(x, es))
  }

  /** x may fail the tests only because one child's depth moved by at most one
      from hl or hr, for which x.depth was exact and balanced. */
  ghost predicate OffByOne(x: Extent, es: set<Extent>, hl: int, hr: int)
    reads x`left, x`right, x`depth, es`depth
  {
    && (x.left == null || x.left in es) && (x.right == null || x.right in es)
    && x.depth == Max(hl, hr) + 1 && Abs(hl - hr) < 2
    && ((hl == Depth(x.left) && Abs(hr - Depth(x.right)) <= 1)
     || (hr == Depth(x.right) && Abs(hl - Depth(x.left)) <= 1))
  }

  ghost function OrNone(x: Extent?): set<Extent> {
    if x == null then {} else {x}
  }

  /** The assignment `*pivot = v`. */
  method SetSlot(s: Slot, v: Extent?)
    modifies (if s.RootOf? then {s.inode} else {})`flayout,
             (if s.LeftOf? then {s.e} else {})`left, (if s.RightOf? then {s.e} else {})`right
    ensures match s
      case RootOf(i) => i.flayout == v
      case LeftOf(e) => e.left == v
      case RightOf(e) => e.right == v
      case NoSlot => true
  {
    match s
    case RootOf(i) => i.flayout := v;
    case LeftOf(e) => e.left := v;
    case RightOf(e) => e.right := v;
    case NoSlot =>
  }

  /** T takes the slot of x: `*pivot = T`. */
  method TakePlace(T: Extent, x: Extent, ghost inode: Inode, ghost es: set<Extent>)
    requires (x.pivot == RootOf(inode) || (Owner(x.pivot) != null && Owner(x.pivot) in es))
    modifies inode`flayout, es`left, es`right, {T}`parent, {T}`pivot
    ensures inode.flayout == if old(x.pivot) == RootOf(inode) then T else old(inode.flayout)
    ensures forall y <- es :: y.left == if old(x.pivot) == LeftOf(y) then T else old(y.left)
    ensures forall y <- es :: y.right == if old(x.pivot) == RightOf(y) then T else old(y.right)
    ensures T.pivot == old(x.pivot) && T.parent == old(x.parent)
  {
    T.parent := x.parent;
    T.pivot := x.pivot;
    SetSlot(T.pivot, T);
  }

  /** n takes kl and kr as its children. */
  method Adopt(n: Extent, kl: Extent?, kr: Extent?, ghost es: set<Extent>)
    requires n != kl && n != kr && (kl == null || kl != kr)
    requires (kl != null ==> kl in es) && (kr != null ==> kr in es)
    modifies {n}`left, {n}`right, es`parent, es`pivot
    ensures n.left == kl && n.right == kr
    ensures forall y <- es :: y.pivot == if y == kl then LeftOf(n) else if y == kr then RightOf(n) else old(y.pivot)
    ensures forall y <- es :: y.parent == if y == kl || y == kr then n else old(y.parent)
  {
    n.left := kl;
    if kl != null {
      kl.parent := n;
      kl.pivot := LeftOf(n);
    }
    n.right := kr;
    if kr != null {
      kr.parent := n;
      kr.pivot := RightOf(n);
    }
  }

  method AdoptAndMeasure(n: Extent, kl: Extent?, kr: Extent?, ghost es: set<Extent>)
    requires n != kl && n != kr && (kl == null || kl != kr)
    requires (kl != null ==> kl in es) && (kr != null ==> kr in es)
    modifies {n}`left, {n}`right, {n}`depth, es`parent, es`pivot
    ensures n.left == kl && n.right == kr
    ensures forall y <- es :: y.pivot == if y == kl then LeftOf(n) else if y == kr then RightOf(n) else old(y.pivot)
    ensures forall y <- es :: y.parent == if y == kl || y == kr then n else old(y.parent)
    ensures n.depth == Max(Depth(kl), Depth(kr)) + 1
  {
    Adopt(n, kl, kr, es);
    n.depth := Max(Depth(kl), Depth(kr)) + 1;
  }

  /** The left and the right extent of a rotation take their children. */
  method AdoptBoth(L: Extent, R: Extent, LL: Extent?, LR: Extent?, RL: Extent?, RR: Extent?, ghost es: set<Extent>)
    requires L != R && L != LL && L != LR && L != RL && L != RR && R != LL && R != LR && R != RL && R != RR
    requires (LL == null || (LL != LR && LL != RL && LL != RR)) && (LR == null || (LR != RL && LR != RR))
    requires (RL == null || RL != RR) && L in es && R in es
    requires (LL != null ==> LL in es) && (LR != null ==> LR in es)
    requires (RL != null ==> RL in es) && (RR != null ==> RR in es)
    modifies {L, R}`left, {L, R}`right, {L, R}`depth, es`parent, es`pivot
    ensures L.left == LL && L.right == LR && R.left == RL && R.right == RR
    ensures forall y <- es :: y.pivot == if y == LL then LeftOf(L) else if y == LR then RightOf(L)
        else if y == RL then LeftOf(R) else if y == RR then RightOf(R) else old(y.pivot)
    ensures forall y <- es :: y.parent == if y == LL || y == LR then L else if y == RL || y == RR then R
        else old(y.parent)
    ensures L.depth == Max(old(Depth(LL)), old(Depth(LR))) + 1
    ensures R.depth == Max(old(Depth(RL)), old(Depth(RR))) + 1
  {
    AdoptAndMeasure(L, LL, LR, es);
    AdoptAndMeasure(R, RL, RR, es);
  }

  /** The three extents of a rotation take their children. */
  method AdoptAll(L: Extent, T: Extent, R: Extent, LL: Extent?, LR: Extent?, RL: Extent?, RR: Extent?,
      ghost es: set<Extent>)
    requires Unaliased(L, T, R, LL, LR, RL, RR)
    requires L in es && T in es && R in es && (LL != null ==> LL in es) && (LR != null ==> LR in es)
    requires (RL != null ==> RL in es) && (RR != null ==> RR in es)
    modifies {L, T, R}`left, {L, T, R}`right, {L, T, R}`depth, es`parent, es`pivot
    ensures L.left == LL && L.right == LR && R.left == RL && R.right == RR && T.left == L && T.right == R
    ensures forall y <- es :: y.pivot == if y == L then LeftOf(T) else if y == R then RightOf(T)
        else if y == LL then LeftOf(L) else if y == LR then RightOf(L)
        else if y == RL then LeftOf(R) else if y == RR then RightOf(R) else old(y.pivot)
    ensures forall y <- es :: y.parent == if y == L || y == R then T
        else if y == LL || y == LR then L else if y == RL || y == RR then R else old(y.parent)
    ensures L.depth == Max(old(Depth(LL)), old(Depth(LR))) + 1
    ensures R.depth == Max(old(Depth(RL)), old(Depth(RR))) + 1
    ensures T.depth == Max(L.depth, R.depth) + 1
  {
    AdoptBoth(L, R, LL, LR, RL, RR, es);
    AdoptAndMeasure(T, L, R, es);
  }

  /** The assignments shared by the four rotations: T takes x's slot with L and R
      as children, and LL, LR, RL, RR become their children in order. */
  method Relink(x: Extent, L: Extent, T: Extent, R: Extent, LL: Extent?, LR: Extent?, RL: Extent?, RR: Extent?,
      ghost inode: Inode, ghost es: set<Extent>)
    requires Unaliased(L, T, R, LL, LR, RL, RR)
    requires L in es && T in es && R in es && (LL != null ==> LL in es) && (LR != null ==> LR in es)
    requires (RL != null ==> RL in es) && (RR != null ==> RR in es)
    requires Owner(x.pivot) != L && Owner(x.pivot) != T && Owner(x.pivot) != R && x.parent == Owner(x.pivot)
    requires x.pivot == RootOf(inode) || (Owner(x.pivot) != null && Owner(x.pivot) in es)
    modifies inode`flayout, es`left, es`right, es`parent, es`pivot, {L, T, R}`depth
    ensures inode.flayout == if old(x.pivot) == RootOf(inode) then T else old(inode.flayout)
    ensures forall y <- es :: y.left == if y == T then L else if y == L then LL else if y == R then RL
        else if old(x.pivot) == LeftOf(y) then T else old(y.left)
    ensures forall y <- es :: y.right == if y == T then R else if y == L then LR else if y == R then RR
        else if old(x.pivot) == RightOf(y) then T else old(y.right)
    ensures forall y <- es :: y.pivot == if y == T then old(x.pivot) else if y == L then LeftOf(T)
        else if y == R then RightOf(T) else if y == LL then LeftOf(L) else if y == LR then RightOf(L)
        else if y == RL then LeftOf(R) else if y == RR then RightOf(R) else old(y.pivot)
    ensures forall y <- es :: y.parent == Owner(y.pivot) || (y.parent == old(y.parent) && y.pivot == old(y.pivot))
    ensures L.depth == Max(old(Depth(LL)), old(Depth(LR))) + 1
    ensures R.depth == Max(old(Depth(RL)), old(Depth(RR))) + 1
    ensures T.depth == Max(L.depth, R.depth) + 1
  {
    TakePlace(T, x, inode, es);
    AdoptAll(L, T, R, LL, LR, RL, RR, es);
  }

  /** The seven pieces below x, regrouped without changing their order. */
  ghost predicate Rearranged(t: Tree, x: Extent, a: Tree, L: Extent, b: Tree, T: Extent, c: Tree, R: Extent, d: Tree) {
    && Fits(t, x, Joined(a, L, b, T, c, R, d))
    && Elems(Joined(a, L, b, T, c, R, d)) == Elems(Sub(t, x))
    && Inorder(Joined(a, L, b, T, c, R, d)) == Inorder(Sub(t, x))
    && IsSub(t, a) && IsSub(t, b) && IsSub(t, c) && IsSub(t, d)
  }

  /** A rotation keeps the pointers a well-formed tree. */
  method Rotate(inode: Inode, ghost es: set<Extent>, ghost t: Tree, x: Extent,
      L: Extent, T: Extent, R: Extent, LL: Extent?, LR: Extent?, RL: Extent?, RR: Extent?,
      ghost a: Tree, ghost b: Tree, ghost c: Tree, ghost d: Tree)
    returns (ghost g: Tree)
    requires Wired(inode, t) && Elems(t) == es
    requires Rearranged(t, x, a, L, b, T, c, R, d)
    requires LL == Root(a) && LR == Root(b) && RL == Root(c) && RR == Root(d)
    modifies inode`flayout, es`left, es`right, es`parent, es`pivot, {L, T, R}`depth
    ensures g == Graft(t, x, Joined(a, L, b, T, c, R, d))
    ensures Wired(inode, g) && Elems(g) == Elems(t)
    ensures L.left == LL && L.right == LR && R.left == RL && R.right == RR && T.left == L && T.right == R
    ensures Depth(LL) == old(Depth(LL)) && Depth(LR) == old(Depth(LR))
    ensures Depth(RL) == old(Depth(RL)) && Depth(RR) == old(Depth(RR))
    ensures L.depth == Max(Depth(LL), Depth(LR)) + 1 && R.depth == Max(Depth(RL), Depth(RR)) + 1
    ensures T.depth == Max(L.depth, R.depth) + 1
  {
    hide Elems, Sub, SlotIn, LeftKid, RightKid, Graft, Distinct, IsSub, Joined;
    g := Graft(t, x, Joined(a, L, b, T, c, R, d));
    JoinedNodes(a, L, b, T, c, R, d);
    RotateNodes(t, x, a, L, b, T, c, R, d, RootOf(inode));
    RotateShape(t, x, a, L, b, T, c, R, d, RootOf(inode));
    assert x in es && LinksOk(t, x, RootOf(inode));
    Relink(x, L, T, R, LL, LR, RL, RR, inode, es);
    forall y | y in es ensures LinksOk(g, y, RootOf(inode)) {
      assert y in Elems(t) && old(LinksOk(t, y, RootOf(inode)));
      RotateLinks(t, x, a, L, b, T, c, R, d, y, RootOf(inode));
    }
  }

  /** A balanced grouping of the same extents in the same order. */
  ghost predicate SameOrder(s: Tree, n: Tree) {
    Elems(n) == Elems(s) && Inorder(n) == Inorder(s) && (Distinct(s) ==> Distinct(n))
  }

  lemma RegroupDistinct(p: Tree, x: Extent, q: Tree, y: Extent, r: Tree)
    ensures Distinct(Node(Node(p, x, q), y, r)) <==> Distinct(Node(p, x, Node(q, y, r)))
  {
    var u, v := Node(p, x, q), Node(q, y, r);
    assert Elems(u) == Elems(p) + {x} + Elems(q) && Elems(v) == Elems(q) + {y} + Elems(r);
    assert Distinct(Node(u, y, r)) <==>
      Distinct(u) && Distinct(r) && y !in Elems(u) && y !in Elems(r) && Elems(u) !! Elems(r);
    assert Distinct(Node(p, x, v)) <==>
      Distinct(p) && Distinct(v) && x !in Elems(p) && x !in Elems(v) && Elems(p) !! Elems(v);
  }

  lemma RegroupElems(p: Tree, x: Extent, q: Tree, y: Extent, r: Tree)
    ensures Elems(Node(Node(p, x, q), y, r)) == Elems(Node(p, x, Node(q, y, r)))
  {
    var u, v := Node(p, x, q), Node(q, y, r);
    assert Elems(Node(u, y, r)) == Elems(u) + {y} + Elems(r) == Elems(p) + {x} + Elems(v) == Elems(Node(p, x, v));
  }

  /** Regrouping three subtrees keeps the order. */
  lemma Regroup(p: Tree, x: Extent, q: Tree, y: Extent, r: Tree)
    ensures SameOrder(Node(Node(p, x, q), y, r), Node(p, x, Node(q, y, r)))
    ensures SameOrder(Node(p, x, Node(q, y, r)), Node(Node(p, x, q), y, r))
  {
    hide Distinct;
    RegroupDistinct(p, x, q, y, r);
    RegroupElems(p, x, q, y, r);
    var u, v := Node(p, x, q), Node(q, y, r);
    assert Inorder(Node(u, y, r)) == Inorder(u) + [y] + Inorder(r);
    assert Inorder(Node(p, x, v)) == Inorder(p) + [x] + Inorder(v);
    assert Inorder(p) + [x] + Inorder(q) + [y] + Inorder(r) == Inorder(p) + [x] + (Inorder(q) + [y] + Inorder(r));
  }

  /** Left-left: the left child's left child is the new left. */
  lemma RearrangeLL(t: Tree, R: Extent, T: Extent, L: Extent)
    requires Distinct(t) && R in Elems(t) && LeftKid(t, R) == T && LeftKid(t, T) == L
    ensures T in Elems(t) && L in Elems(t) && T != R && L != R
    ensures Rearranged(t, R, LeftSub(t, L), L, RightSub(t, L), T, RightSub(t, T), R, RightSub(t, R))
  {
    SubKids(t, R);
    KidSlots(t, R, NoSlot);
    SubKids(t, T);
    KidSlots(t, T, NoSlot);
    SubKids(t, L);
    Regroup(Node(LeftSub(t, L), L, RightSub(t, L)), T, RightSub(t, T), R, RightSub(t, R));
  }

  lemma RejoinLR(a: Tree, L: Extent, b: Tree, T: Extent, c: Tree, R: Extent, d: Tree)
    ensures SameOrder(Node(Node(a, L, Node(b, T, c)), R, d), Joined(a, L, b, T, c, R, d))
  {
    Regroup(a, L, b, T, c);
    Regroup(Node(a, L, b), T, c, R, d);
    assert SameOrder(Node(Node(a, L, Node(b, T, c)), R, d), Node(Node(Node(a, L, b), T, c), R, d));
  }

  /** Left-right: the left child's right child is the new top. */
  lemma RearrangeLR(t: Tree, R: Extent, T: Extent, L: Extent)
    requires Distinct(t) && R in Elems(t) && LeftKid(t, R) == L && RightKid(t, L) == T
    ensures T in Elems(t) && L in Elems(t) && T != R && L != R
    ensures Rearranged(t, R, LeftSub(t, L), L, LeftSub(t, T), T, RightSub(t, T), R, RightSub(t, R))
  {
    SubKids(t, R);
    KidSlots(t, R, NoSlot);
    SubKids(t, L);
    KidSlots(t, L, NoSlot);
    SubKids(t, T);
    RejoinLR(LeftSub(t, L), L, LeftSub(t, T), T, RightSub(t, T), R, RightSub(t, R));
  }

  lemma RejoinRL(a: Tree, L: Extent, b: Tree, T: Extent, c: Tree, R: Extent, d: Tree)
    ensures SameOrder(Node(a, L, Node(Node(b, T, c), R, d)), Joined(a, L, b, T, c, R, d))
  {
    Regroup(b, T, c, R, d);
    Regroup(a, L, b, T, Node(c, R, d));
    assert SameOrder(Node(a, L, Node(Node(b, T, c), R, d)), Node(a, L, Node(b, T, Node(c, R, d))));
  }

  /** Right-left: the right child's left child is the new top. */
  lemma RearrangeRL(t: Tree, L: Extent, T: Extent, R: Extent)
    requires Distinct(t) && L in Elems(t) && RightKid(t, L) == R && LeftKid(t, R) == T
    ensures T in Elems(t) && R in Elems(t) && T != L && R != L
    ensures Rearranged(t, L, LeftSub(t, L), L, LeftSub(t, T), T, RightSub(t, T), R, RightSub(t, R))
  {
    SubKids(t, L);
    KidSlots(t, L, NoSlot);
    SubKids(t, R);
    KidSlots(t, R, NoSlot);
    SubKids(t, T);
    RejoinRL(LeftSub(t, L), L, LeftSub(t, T), T, RightSub(t, T), R, RightSub(t, R));
  }

  /** Right-right: the right child's right child is the new right. */
  lemma RearrangeRR(t: Tree, L: Extent, T: Extent, R: Extent)
    requires Distinct(t) && L in Elems(t) && RightKid(t, L) == T && RightKid(t, T) == R
    ensures T in Elems(t) && R in Elems(t) && T != L && R != L
    ensures Rearranged(t, L, LeftSub(t, L), L, LeftSub(t, T), T, LeftSub(t, R), R, RightSub(t, R))
  {
    SubKids(t, L);
    KidSlots(t, L, NoSlot);
    SubKids(t, T);
    KidSlots(t, T, NoSlot);
    SubKids(t, R);
    Regroup(LeftSub(t, L), L, LeftSub(t, T), T, Node(LeftSub(t, R), R, RightSub(t, R)));
  }

  /** What the invariant says of x. */
  lemma NodeOk(inode: Inode, es: set<Extent>, t: Tree, hole: Extent, x: Extent)
    requires Wired(inode, t) && Elems(t) == es && DepthsOk(es, hole) && x in es
    ensures Distinct(t) && x.left == LeftKid(t, x) && x.right == RightKid(t, x) && x.depth >= 1
    ensures x != hole ==> DepthOk(x, es)
    ensures (x.left == null || x.left in es ==> Depth(x.left) >= 0)
    ensures (x.right == null || x.right in es ==> Depth(x.right) >= 0)
  {
    hide Elems, Distinct, LeftKid, RightKid, SlotIn;
    assert LinksOk(t, x, RootOf(inode));
  }

  /** The two cases in which the left subtree is the deeper one. */
  method ChooseLeft(inode: Inode, ghost es: set<Extent>, ghost t: Tree, ext: Extent, ghost hl: int, ghost hr: int)
    returns (L: Extent, T: Extent, R: Extent, LL: Extent?, LR: Extent?, RL: Extent?, RR: Extent?,
      ghost a: Tree, ghost b: Tree, ghost c: Tree, ghost d: Tree)
    requires Wired(inode, t) && Elems(t) == es && ext in es
    requires DepthsOk(es, ext) && OffByOne(ext, es, hl, hr)
    requires Depth(ext.left) > Depth(ext.right) + 1
    ensures L in es && T in es && R in es && (ext == L || ext == R) && Rearranged(t, ext, a, L, b, T, c, R, d)
    ensures LL == Root(a) && LR == Root(b) && RL == Root(c) && RR == Root(d)
    ensures Abs(Depth(LL) - Depth(LR)) < 2 && Abs(Depth(RL) - Depth(RR)) < 2
    ensures var l, r := Max(Depth(LL), Depth(LR)) + 1, Max(Depth(RL), Depth(RR)) + 1;
      Abs(l - r) < 2 && Abs(Max(l, r) + 1 - ext.depth) <= 1
  {
    hide Wired, DepthsOk, Elems, Sub, LeftSub, RightSub, SlotIn, Graft, Distinct, IsSub, Joined, Rearranged;
    NodeOk(inode, es, t, ext, ext);
    var dcl, dcr := Depth(ext.left.left), Depth(ext.left.right);
    if dcl >= dcr {
      T := ext.left;
      NodeOk(inode, es, t, ext, T);
      L := ext.left.left;
      NodeOk(inode, es, t, ext, L);
      R := ext;
      LL, LR, RL, RR := L.left, L.right, T.right, R.right;
      RearrangeLL(t, R, T, L);
      a, b, c, d := LeftSub(t, L), RightSub(t, L), RightSub(t, T), RightSub(t, R);
    } else {
      L := ext.left;
      NodeOk(inode, es, t, ext, L);
      T := L.right;
      NodeOk(inode, es, t, ext, T);
      R := ext;
      LL, LR, RL, RR := L.left, T.left, T.right, R.right;
      RearrangeLR(t, R, T, L);
      a, b, c, d := LeftSub(t, L), LeftSub(t, T), RightSub(t, T), RightSub(t, R);
    }
  }

  /** The two cases in which the right subtree is the deeper one. */
  method ChooseRight(inode: Inode, ghost es: set<Extent>, ghost t: Tree, ext: Extent, ghost hl: int, ghost hr: int)
    returns (L: Extent, T: Extent, R: Extent, LL: Extent?, LR: Extent?, RL: Extent?, RR: Extent?,
      ghost a: Tree, ghost b: Tree, ghost c: Tree, ghost d: Tree)
    requires Wired(inode, t) && Elems(t) == es && ext in es
    requires DepthsOk(es, ext) && OffByOne(ext, es, hl, hr)
    requires Depth(ext.right) > Depth(ext.left) + 1
    ensures L in es && T in es && R in es && (ext == L || ext == R) && Rearranged(t, ext, a, L, b, T, c, R, d)
    ensures LL == Root(a) && LR == Root(b) && RL == Root(c) && RR == Root(d)
    ensures Abs(Depth(LL) - Depth(LR)) < 2 && Abs(Depth(RL) - Depth(RR)) < 2
    ensures var l, r := Max(Depth(LL), Depth(LR)) + 1, Max(Depth(RL), Depth(RR)) + 1;
      Abs(l - r) < 2 && Abs(Max(l, r) + 1 - ext.depth) <= 1
  {
    hide Wired, DepthsOk, Elems, Sub, LeftSub, RightSub, SlotIn, Graft, Distinct, IsSub, Joined, Rearranged;
    NodeOk(inode, es, t, ext, ext);
    var dcl, dcr := Depth(ext.right.left), Depth(ext.right.right);
    if dcl > dcr {
      L := ext;
      R := L.right;
      NodeOk(inode, es, t, ext, R);
      T := R.left;
      NodeOk(inode, es, t, ext, T);
      LL, LR, RL, RR := L.left, T.left, T.right, R.right;
      RearrangeRL(t, L, T, R);
      a, b, c, d := LeftSub(t, L), LeftSub(t, T), RightSub(t, T), RightSub(t, R);
    } else {
      L := ext;
      T := L.right;
      NodeOk(inode, es, t, ext, T);
      R := T.right;
      NodeOk(inode, es, t, ext, R);
      LL, LR, RL, RR := L.left, T.left, R.left, R.right;
      RearrangeRR(t, L, T, R);
      a, b, c, d := LeftSub(t, L), LeftSub(t, T), LeftSub(t, R), RightSub(t, R);
    }
  }

  /** The choice of roles in the four imbalance cases. */
  method ChooseRoles(inode: Inode, ghost es: set<Extent>, ghost t: Tree, ext: Extent, ghost hl: int, ghost hr: int)
    returns (L: Extent, T: Extent, R: Extent, LL: Extent?, LR: Extent?, RL: Extent?, RR: Extent?,
      ghost a: Tree, ghost b: Tree, ghost c: Tree, ghost d: Tree)
    requires Wired(inode, t) && Elems(t) == es && ext in es
    requires DepthsOk(es, ext) && OffByOne(ext, es, hl, hr)
    requires Abs(Depth(ext.left) - Depth(ext.right)) > 1
    ensures L in es && T in es && R in es && (ext == L || ext == R) && Rearranged(t, ext, a, L, b, T, c, R, d)
    ensures LL == Root(a) && LR == Root(b) && RL == Root(c) && RR == Root(d)
    ensures Abs(Depth(LL) - Depth(LR)) < 2 && Abs(Depth(RL) - Depth(RR)) < 2
    ensures var l, r := Max(Depth(LL), Depth(LR)) + 1, Max(Depth(RL), Depth(RR)) + 1;
      Abs(l - r) < 2 && Abs(Max(l, r) + 1 - ext.depth) <= 1
  {
    hide Wired, DepthsOk, Elems, Sub, LeftSub, RightSub, SlotIn, Graft, Distinct, IsSub, Joined, Rearranged;
    var dl, dr := Depth(ext.left), Depth(ext.right);
    assert Abs(dl - dr) == 2;
    if dl > dr {
      L, T, R, LL, LR, RL, RR, a, b, c, d := ChooseLeft(inode, es, t, ext, hl, hr);
    } else {
      L, T, R, LL, LR, RL, RR, a, b, c, d := ChooseRight(inode, es, t, ext, hl, hr);
    }
  }

  /** The children of an extent away from a rotation. */
  lemma KidsAfter(t: Tree, ext: Extent, a: Tree, L: Extent, b: Tree, T: Extent, c: Tree, R: Extent, d: Tree,
      y: Extent, top: Slot)
    requires Rearranged(t, ext, a, L, b, T, c, R, d) && top.RootOf?
    requires y in Elems(t) && y != L && y != T && y != R
    ensures var g, up := Graft(t, ext, Joined(a, L, b, T, c, R, d)), SlotIn(t, ext, top);
      && LeftKid(g, y) == (if up == LeftOf(y) then T else LeftKid(t, y))
      && RightKid(g, y) == (if up == RightOf(y) then T else RightKid(t, y))
      && (up == LeftOf(y) ==> LeftKid(t, y) == ext) && (up == RightOf(y) ==> RightKid(t, y) == ext)
      && (up != LeftOf(y) && LeftKid(t, y) != null ==>
          LeftKid(t, y) in Elems(t) && LeftKid(t, y) != L && LeftKid(t, y) != T && LeftKid(t, y) != R)
      && (up != RightOf(y) && RightKid(t, y) != null ==>
          RightKid(t, y) in Elems(t) && RightKid(t, y) != L && RightKid(t, y) != T && RightKid(t, y) != R)
  {
    hide Elems, Sub, LeftSub, RightSub, LeftKid, RightKid, SlotIn, Graft, Distinct, IsSub, Joined;
    var g := Graft(t, ext, Joined(a, L, b, T, c, R, d));
    RotateNodes(t, ext, a, L, b, T, c, R, d, top);
    JoinedNodes(a, L, b, T, c, R, d);
    RotateShape(t, ext, a, L, b, T, c, R, d, top);
    RotateLinks(t, ext, a, L, b, T, c, R, d, y, top);
    RotateLinks(t, ext, a, L, b, T, c, R, d, L, top);
    RotateLinks(t, ext, a, L, b, T, c, R, d, R, top);
    RotateLinks(t, ext, a, L, b, T, c, R, d, T, top);
    KidSlots(g, y, top);
    SlotOwner(t, ext, top);
  }

  /** An extent away from the rotation keeps its depth tests; the owner of the
      rotated slot may see its child's depth move by one. */
  twostate lemma DepthKept(new inode: Inode, es: set<Extent>, new t: Tree, new ext: Extent,
      new a: Tree, new L: Extent, new b: Tree, new T: Extent, new c: Tree, new R: Extent, new d: Tree, new y: Extent)
    requires Elems(t) == es && ext in es && Rearranged(t, ext, a, L, b, T, c, R, d)
    requires var g := Graft(t, ext, Joined(a, L, b, T, c, R, d)); Wired(inode, g) && Elems(g) == es
    requires y in es && y != L && y != T && y != R
    requires T in es && Abs(T.depth - old(ext.depth)) <= 1
    requires forall z <- es :: z == L || z == T || z == R || z.depth == old(z.depth)
    requires old(DepthOk(y, es)) && old(y.left) == LeftKid(t, y) && old(y.right) == RightKid(t, y)
    ensures if y == Owner(SlotIn(t, ext, RootOf(inode)))
      then OffByOne(y, es, old(Depth(y.left)), old(Depth(y.right))) && (T.depth == old(ext.depth) ==> DepthOk(y, es))
      else DepthOk(y, es)
  {
    hide Elems, Sub, LeftSub, RightSub, LeftKid, RightKid, SlotIn, Graft, Distinct, IsSub, Joined, Rearranged;
    var g := Graft(t, ext, Joined(a, L, b, T, c, R, d));
    KidsAfter(t, ext, a, L, b, T, c, R, d, y, RootOf(inode));
    assert LinksOk(g, y, RootOf(inode));
  }

  lemma RotateOrder(t: Tree, ext: Extent, a: Tree, L: Extent, b: Tree, T: Extent, c: Tree, R: Extent, d: Tree,
      top: Slot)
    requires Rearranged(t, ext, a, L, b, T, c, R, d) && top.RootOf?
    ensures var g := Graft(t, ext, Joined(a, L, b, T, c, R, d));
      && Inorder(g) == Inorder(t) && Level(g, T) == Level(t, ext) && SlotIn(g, T, top) == SlotIn(t, ext, top)
      && LeftKid(g, T) == L && RightKid(g, T) == R && LeftKid(g, L) == Root(a) && RightKid(g, L) == Root(b)
      && LeftKid(g, R) == Root(c) && RightKid(g, R) == Root(d)
    ensures (a.Node? ==> a.e in Elems(t)) && (b.Node? ==> b.e in Elems(t))
    ensures (c.Node? ==> c.e in Elems(t)) && (d.Node? ==> d.e in Elems(t))
    ensures L in Elems(t) && T in Elems(t) && R in Elems(t) && Unaliased(L, T, R, Root(a), Root(b), Root(c), Root(d))
    ensures var p, g := Owner(SlotIn(t, ext, top)), Graft(t, ext, Joined(a, L, b, T, c, R, d));
      p != null ==> p in Elems(t) && Level(g, T) == Level(g, p) + 1 && p != L && p != T && p != R
  {
    var n := Joined(a, L, b, T, c, R, d);
    assert T in Elems(n) && Level(n, T) == 0 && SlotIn(n, T, SlotIn(t, ext, top)) == SlotIn(t, ext, top);
    hide Elems, Sub, LeftSub, RightSub, LeftKid, RightKid, SlotIn, Level, Graft, Distinct, IsSub, Joined;
    GraftInorder(t, ext, n);
    SubIn(t, ext);
    GraftInside(t, ext, n, T, top);
    JoinedNodes(a, L, b, T, c, R, d);
    RotateNodes(t, ext, a, L, b, T, c, R, d, top);
    RotateLinks(t, ext, a, L, b, T, c, R, d, L, top);
    RotateLinks(t, ext, a, L, b, T, c, R, d, R, top);
    RotateLinks(t, ext, a, L, b, T, c, R, d, T, top);
    SlotOwner(t, ext, top);
    OwnerOutside(t, ext, top);
    var p := Owner(SlotIn(t, ext, top));
    if p != null { GraftOutside(t, ext, n, p, top); }
  }

  /** The depth tests after a rotation. */
  twostate lemma DepthsAfter(new inode: Inode, es: set<Extent>, new t: Tree, new ext: Extent,
      new a: Tree, new L: Extent, new b: Tree, new T: Extent, new c: Tree, new R: Extent, new d: Tree)
    requires forall y <- es :: old(y.left) == LeftKid(t, y) && old(y.right) == RightKid(t, y)
    requires Elems(t) == es && ext in es && Rearranged(t, ext, a, L, b, T, c, R, d)
    requires var g := Graft(t, ext, Joined(a, L, b, T, c, R, d)); Wired(inode, g) && Elems(g) == es
    requires L in es && T in es && R in es
    requires forall z <- es :: z == L || z == T || z == R || z.depth == old(z.depth)
    requires old(DepthsOk(es, ext)) && (ext == L || ext == T || ext == R)
    requires var p := Owner(SlotIn(t, ext, RootOf(inode)));
      && p == T.parent && (p != null ==> p in es && p != L && p != T && p != R)
    requires L.depth >= 1 && T.depth >= 1 && R.depth >= 1 && DepthOk(L, es) && DepthOk(T, es) && DepthOk(R, es)
    requires Abs(T.depth - old(ext.depth)) <= 1
    ensures DepthsOk(es, T.parent)
    ensures var p := T.parent; p != null ==>
      OffByOne(p, es, old(Depth(p.left)), old(Depth(p.right))) && (T.depth == old(ext.depth) ==> DepthOk(p, es))
  {
    hide Elems, Sub, LeftSub, RightSub, LeftKid, RightKid, SlotIn, Level, Graft, Distinct, IsSub, Joined;
    hide Rearranged, Wired, DepthOk, OffByOne;
    forall y | y in es && y != L && y != T && y != R
      ensures y.depth >= 1 && (y != T.parent ==> DepthOk(y, es))
    {
      DepthKept(inode, es, t, ext, a, L, b, T, c, R, d, y);
    }
    var p := T.parent;
    if p != null { DepthKept(inode, es, t, ext, a, L, b, T, c, R, d, p); }
  }

  /** The links of every extent. */
  lemma WiredKids(inode: Inode, es: set<Extent>, t: Tree)
    requires Wired(inode, t) && Elems(t) == es
    ensures forall y <- es :: y.left == LeftKid(t, y) && y.right == RightKid(t, y)
    ensures forall y <- es :: y.parent == Owner(SlotIn(t, y, RootOf(inode)))
  {
    hide Elems, Distinct, LeftKid, RightKid, SlotIn;
    forall y | y in es ensures LinksOk(t, y, RootOf(inode)) { }
  }

  lemma DeepEnough(es: set<Extent>, hole: Extent?)
    requires DepthsOk(es, hole)
    ensures forall y <- es :: y.depth >= 1
  {
  }

  /** n, whose depth was just computed over balanced children, passes the depth tests. */
  lemma Measured(n: Extent, es: set<Extent>, kl: Extent?, kr: Extent?)
    requires n.left == kl && n.right == kr && (kl == null || kl in es) && (kr == null || kr in es)
    requires n.depth == Max(Depth(kl), Depth(kr)) + 1 && Abs(Depth(kl) - Depth(kr)) < 2
    ensures DepthOk(n, es)
  {
  }

  /** One rotation at ext: T takes its place, every extent but T's parent passes
      the depth tests, and T's depth is within one of ext's. */
  method RotateAt(inode: Inode, ghost es: set<Extent>, ghost t: Tree, ext: Extent, ghost hl: int, ghost hr: int)
    returns (T: Extent, ghost g: Tree)
    requires Wired(inode, t) && Elems(t) == es && ext in es
    requires DepthsOk(es, ext) && OffByOne(ext, es, hl, hr)
    requires Abs(Depth(ext.left) - Depth(ext.right)) > 1
    modifies inode`flayout, es`left, es`right, es`parent, es`pivot, es`depth
    ensures Wired(inode, g) && Elems(g) == es && Inorder(g) == Inorder(t)
    ensures T in es && T.parent == old(ext.parent) && Level(g, T) == Level(t, ext)
    ensures T.depth >= 1 && Abs(T.depth - old(ext.depth)) <= 1
    ensures DepthsOk(es, T.parent)
    ensures var p := T.parent; p != null ==>
      && p in es && Level(g, T) == Level(g, p) + 1 && (T.depth == old(ext.depth) ==> DepthOk(p, es))
      && OffByOne(p, es, old(Depth(p.left)), old(Depth(p.right)))
  {
    hide Elems, Sub, LeftSub, RightSub, LeftKid, RightKid, SlotIn, Level, Graft, Distinct, IsSub, Joined, Rearranged;
    hide Wired, LinksOk, DepthsOk, DepthOk, OffByOne, Unaliased;
    ghost var a, b, c, d;
    var L, R, LL, LR, RL, RR;
    WiredKids(inode, es, t);
    DeepEnough(es, ext);
    L, T, R, LL, LR, RL, RR, a, b, c, d := ChooseRoles(inode, es, t, ext, hl, hr);
    g := Rotate(inode, es, t, ext, L, T, R, LL, LR, RL, RR, a, b, c, d);
    RotateOrder(t, ext, a, L, b, T, c, R, d, RootOf(inode));
    WiredKids(inode, es, g);
    Measured(L, es, LL, LR);
    Measured(R, es, RL, RR);
    Measured(T, es, L, R);
    DepthsAfter(inode, es, t, ext, a, L, b, T, c, R, d);
  }

  lemma OnlyParent(inode: Inode, t: Tree, x: Extent, y: Extent)
    requires Wired(inode, t) && x in Elems(t) && y in Elems(t)
    ensures y.left == x || y.right == x ==> y == x.parent && x != y && y.left != y.right
  {
    hide Elems, Sub, LeftSub, RightSub, LeftKid, RightKid, SlotIn, Level, Distinct;
    assert LinksOk(t, x, RootOf(inode)) && LinksOk(t, y, RootOf(inode));
    KidSlots(t, y, RootOf(inode));
  }

  twostate lemma RefreshedAt(es: set<Extent>, new ext: Extent, new y: Extent, new hl: int, new hr: int)
    requires ext in es && y in es && old(DepthsOk(es, ext) && OffByOne(ext, es, hl, hr)) && y != ext.parent
    requires y.left == old(y.left) && y.right == old(y.right) && forall z <- es :: z != ext ==> z.depth == old(z.depth)
    requires (y.left == ext || y.right == ext ==> y == ext.parent) && ext.left != ext && ext.right != ext
    requires ext.left == old(ext.left) && ext.right == old(ext.right)
    requires Abs(old(Depth(ext.left)) - old(Depth(ext.right))) <= 1
    requires ext.depth == Max(old(Depth(ext.left)), old(Depth(ext.right))) + 1
    ensures y.depth >= 1 && DepthOk(y, es)
  {
    if y != ext { assert old(DepthOk(y, es)); }
  }

  twostate lemma ParentRefreshed(es: set<Extent>, new ext: Extent, new p: Extent)
    requires ext in es && p in es && p != ext && old(DepthsOk(es, ext)) && Abs(ext.depth - old(ext.depth)) <= 1
    requires p.left == old(p.left) && p.right == old(p.right)
    requires p.left == ext || p.right == ext ==> p.left != p.right
    requires forall z <- es :: z != ext ==> z.depth == old(z.depth)
    ensures OffByOne(p, es, old(Depth(p.left)), old(Depth(p.right)))
    ensures ext.depth == old(ext.depth) ==> DepthOk(p, es)
  {
    assert old(DepthOk(p, es));
  }

  /** Giving ext an exact depth affects the tests of its parent alone. */
  twostate lemma DepthsRefreshed(es: set<Extent>, new ext: Extent, new hl: int, new hr: int)
    requires ext in es && old(DepthsOk(es, ext) && OffByOne(ext, es, hl, hr))
    requires forall y <- es ::
      y.left == old(y.left) && y.right == old(y.right) && (y != ext ==> y.depth == old(y.depth))
    requires forall y <- es :: y.left == ext || y.right == ext ==> y == ext.parent && y != ext && y.left != y.right
    requires Abs(old(Depth(ext.left)) - old(Depth(ext.right))) <= 1
    requires ext.depth == Max(old(Depth(ext.left)), old(Depth(ext.right))) + 1
    requires ext.parent != null ==> ext.parent in es && ext.parent != ext
    ensures ext.depth >= 1 && Abs(ext.depth - old(ext.depth)) <= 1
    ensures DepthsOk(es, ext.parent)
    ensures var p := ext.parent; p != null ==>
      OffByOne(p, es, old(Depth(p.left)), old(Depth(p.right))) && (ext.depth == old(ext.depth) ==> DepthOk(p, es))
  {
    hide DepthOk;
    assert ext.left != ext && ext.right != ext;
    forall y <- es ensures y.depth >= 1 && (y != ext.parent ==> DepthOk(y, es)) {
      if y != ext.parent { RefreshedAt(es, ext, y, hl, hr); }
    }
    var p := ext.parent;
    if p != null { ParentRefreshed(es, ext, p); }
  }

  /** ext hangs under its parent alone, one level down. */
  lemma ParentFacts(inode: Inode, es: set<Extent>, t: Tree, ext: Extent)
    requires Wired(inode, t) && Elems(t) == es && ext in es
    ensures ext.left != ext && ext.right != ext
    ensures forall y <- es :: y.left == ext || y.right == ext ==> y == ext.parent && y != ext && y.left != y.right
    ensures var p := ext.parent; p != null ==> p in es && p != ext && Level(t, ext) == Level(t, p) + 1
  {
    hide Elems, Sub, LeftSub, RightSub, LeftKid, RightKid, SlotIn, Level, Distinct;
    assert LinksOk(t, ext, RootOf(inode));
    SlotOwner(t, ext, RootOf(inode));
    forall y | y in es ensures y.left == ext || y.right == ext ==> y == ext.parent && y != ext && y.left != y.right {
      OnlyParent(inode, t, ext, y);
    }
    if ext.left == ext || ext.right == ext { assert false; }
  }

  /** Recomputing the depth of ext, whose children are balanced. */
  method Refresh(inode: Inode, ghost es: set<Extent>, ghost t: Tree, ext: Extent, ghost hl: int, ghost hr: int)
    requires Wired(inode, t) && Elems(t) == es && ext in es
    requires DepthsOk(es, ext) && OffByOne(ext, es, hl, hr)
    requires Abs(Depth(ext.left) - Depth(ext.right)) <= 1
    modifies {ext}`depth
    ensures ext.depth >= 1 && Abs(ext.depth - old(ext.depth)) <= 1
    ensures DepthsOk(es, ext.parent)
    ensures var p := ext.parent; p != null ==>
      && p in es && Level(t, ext) == Level(t, p) + 1 && (ext.depth == old(ext.depth) ==> DepthOk(p, es))
      && OffByOne(p, es, old(Depth(p.left)), old(Depth(p.right)))
  {
    hide Elems, Sub, LeftSub, RightSub, LeftKid, RightKid, SlotIn, Level, Distinct, Wired, DepthsOk;
    ParentFacts(inode, es, t, ext);
    label before:
    ext.depth := Max(Depth(ext.left), Depth(ext.right)) + 1;
    DepthsRefreshed@before(es, ext, hl, hr);
  }

  /** incont.c's rebalance: from `start` up, restore depths and balance. */
  method Rebalance(inode: Inode, ghost es: set<Extent>, ghost t: Tree, start: Extent?, ghost hl: int, ghost hr: int)
    returns (ghost g: Tree)
    requires Wired(inode, t) && Elems(t) == es && DepthsOk(es, start)
    requires start != null ==> start in es && OffByOne(start, es, hl, hr)
    modifies inode`flayout, es`left, es`right, es`parent, es`pivot, es`depth
    ensures Wired(inode, g) && Elems(g) == es && Inorder(g) == Inorder(t)
    ensures DepthsOk(es, null)
  {
    hide Elems, Sub, LeftSub, RightSub, LeftKid, RightKid, SlotIn, Level, Distinct;
    hide Wired, OffByOne, DepthOk;
    g := t;
    var ext := start;
    ghost var l, r := hl, hr;
    while ext != null
      invariant Wired(inode, g) && Elems(g) == es && Inorder(g) == Inorder(t) && DepthsOk(es, ext)
      invariant ext != null ==> ext in es && OffByOne(ext, es, l, r)
      decreases if ext == null then 0 else Level(g, ext) + 1
    {
      var depOri := ext.depth;
      ghost var p := ext.parent;
      ghost var pl, pr := if p == null then 0 else Depth(p.left), if p == null then 0 else Depth(p.right);
      if Abs(Depth(ext.left) - Depth(ext.right)) > 1 {
        ext, g := RotateAt(inode, es, g, ext, l, r);
      } else {
        Refresh(inode, es, g, ext, l, r);
      }
      l, r := pl, pr;
      if ext.depth == depOri { break; }
      ext := ext.parent;
    }
  }
}
