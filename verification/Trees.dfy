/** The theory of tree shapes: in-order sequences, the links a shape demands of
    its extents, and the effect of replacing one subtree. */
module Trees {
  import opened Extents
  import opened Sequences

  function Root(t: Tree): Extent? {
    if t.Nil? then null else t.e
  }

  ghost function Elems(t: Tree): set<Extent> {
    if t.Nil? then {} else Elems(t.l) + {t.e} + Elems(t.r)
  }

  ghost function Inorder(t: Tree): seq<Extent> {
    if t.Nil? then [] else Inorder(t.l) + [t.e] + Inorder(t.r)
  }

  ghost predicate Distinct(t: Tree) {
    t.Node? ==>
      && t.e !in Elems(t.l) && t.e !in Elems(t.r) && Elems(t.l) !! Elems(t.r)
      && Distinct(t.l) && Distinct(t.r)
  }

  /** The subtree whose root is x. */
  ghost function Sub(t: Tree, x: Extent): Tree {
    if t.Nil? then Nil
    else if t.e == x then t
    else if x in Elems(t.l) then Sub(t.l, x)
    else Sub(t.r, x)
  }

  /** The slot that holds x when `top` holds the whole tree. */
  ghost function SlotIn(t: Tree, x: Extent, top: Slot): Slot {
    if t.Nil? then top
    else if t.e == x then top
    else if x in Elems(t.l) then SlotIn(t.l, x, LeftOf(t.e))
    else SlotIn(t.r, x, RightOf(t.e))
  }

  ghost function LeftSub(t: Tree, x: Extent): Tree {
    var s := Sub(t, x); if s.Nil? then Nil else s.l
  }

  ghost function RightSub(t: Tree, x: Extent): Tree {
    var s := Sub(t, x); if s.Nil? then Nil else s.r
  }

  ghost function LeftKid(t: Tree, x: Extent): Extent? {
    Root(LeftSub(t, x))
  }

  ghost function RightKid(t: Tree, x: Extent): Extent? {
    Root(RightSub(t, x))
  }

  /** The number of extents above x. */
  ghost function Level(t: Tree, x: Extent): nat {
    if t.Nil? || t.e == x then 0
    else if x in Elems(t.l) then 1 + Level(t.l, x)
    else 1 + Level(t.r, x)
  }

  /** The tree with the subtree under x replaced by n. */
  ghost function Graft(t: Tree, x: Extent, n: Tree): Tree {
    if t.Nil? then Nil
    else if t.e == x then n
    else if x in Elems(t.l) then Node(Graft(t.l, x, n), t.e, t.r)
    else Node(t.l, t.e, Graft(t.r, x, n))
  }

  /** What precedes and what follows the subtree under x in order. */
  ghost function Before(t: Tree, x: Extent): seq<Extent> {
    if t.Nil? || t.e == x then []
    else if x in Elems(t.l) then Before(t.l, x)
    else Inorder(t.l) + [t.e] + Before(t.r, x)
  }

  ghost function After(t: Tree, x: Extent): seq<Extent> {
    if t.Nil? || t.e == x then []
    else if x in Elems(t.l) then After(t.l, x) + [t.e] + Inorder(t.r)
    else After(t.r, x)
  }

  // ---- sequences and sets of extents

  lemma {:induction false} InorderElems(t: Tree)
    ensures SetOf(Inorder(t)) == Elems(t)
  {
    if t.Node? {
      InorderElems(t.l);
      InorderElems(t.r);
    }
  }

  lemma {:induction false} InorderNoDup(t: Tree)
    requires Distinct(t)
    ensures NoDup(Inorder(t))
  {
    if t.Node? {
      InorderNoDup(t.l);
      InorderNoDup(t.r);
      InorderElems(t.l);
      InorderElems(t.r);
      assert NoDup([t.e]);
      NoDupConcat(Inorder(t.l), [t.e]);
      NoDupConcat(Inorder(t.l) + [t.e], Inorder(t.r));
    }
  }

  // ---- subtrees

  lemma SplitLater<T>(a: seq<T>, b: seq<T>, c: seq<T>, d: seq<T>, e: seq<T>)
    ensures a + b + c + d + e == a + b + (c + d + e)
    ensures a + b + (c + d + e) == (a + b + c) + d + e
  {
  }

  lemma {:induction false} SubIn(t: Tree, x: Extent)
    requires Distinct(t) && x in Elems(t)
    ensures var s := Sub(t, x);
      s.Node? && s.e == x && Elems(s) <= Elems(t) && Distinct(s)
    ensures Inorder(t) == Before(t, x) + Inorder(Sub(t, x)) + After(t, x)
  {
    if t.e == x {
      assert Inorder(t) == [] + Inorder(t) + [];
    } else if x in Elems(t.l) {
      SubIn(t.l, x);
      SplitLater(Before(t.l, x), Inorder(Sub(t.l, x)), After(t.l, x), [t.e], Inorder(t.r));
    } else {
      SubIn(t.r, x);
      SplitLater(Inorder(t.l), [t.e], Before(t.r, x), Inorder(Sub(t.r, x)), After(t.r, x));
    }
  }

  /** Links below x are read off the subtree under x. */
  lemma {:induction false} SubOf(t: Tree, x: Extent, y: Extent, top: Slot)
    requires Distinct(t) && x in Elems(t) && y in Elems(Sub(t, x))
    ensures Sub(t, y) == Sub(Sub(t, x), y)
    ensures SlotIn(t, y, top) == SlotIn(Sub(t, x), y, SlotIn(t, x, top))
    ensures Level(t, y) == Level(t, x) + Level(Sub(t, x), y)
  {
    if t.e != x {
      if x in Elems(t.l) {
        SubIn(t.l, x);
        SubOf(t.l, x, y, LeftOf(t.e));
      } else {
        SubIn(t.r, x);
        SubOf(t.r, x, y, RightOf(t.e));
      }
    }
  }

  /** Where the slot of x leads: its owner holds x as that child. */
  lemma {:induction false} SlotOwner(t: Tree, x: Extent, top: Slot)
    requires Distinct(t) && x in Elems(t)
    ensures SlotIn(t, x, top) == top <== x == Root(t)
    ensures x != Root(t) ==>
      && SlotIn(t, x, top) == SlotIn(t, x, NoSlot)
      && var p := Owner(SlotIn(t, x, top));
         p != null && p in Elems(t) && x in Elems(Sub(t, p)) && Level(t, x) == Level(t, p) + 1
         && ((SlotIn(t, x, top) == LeftOf(p) && LeftKid(t, p) == x)
          || (SlotIn(t, x, top) == RightOf(p) && RightKid(t, p) == x))
  {
    if t.e != x {
      var k, s := if x in Elems(t.l) then t.l else t.r, if x in Elems(t.l) then LeftOf(t.e) else RightOf(t.e);
      SlotOwner(k, x, s);
      if x != Root(k) {
        SubIn(k, Owner(SlotIn(k, x, s)));
      }
    }
  }

  // ---- grafting

  /** n may take the place of the subtree under x. */
  ghost predicate Fits(t: Tree, x: Extent, n: Tree) {
    && Distinct(t) && x in Elems(t) && Distinct(n)
    && Elems(n) * Elems(t) <= Elems(Sub(t, x))
  }

  /** n may also take that place in the half of t that holds x. */
  lemma HalfFits(t: Tree, x: Extent, n: Tree)
    requires Fits(t, x, n) && t.e != x
    ensures var k, o := if x in Elems(t.l) then t.l else t.r, if x in Elems(t.l) then t.r else t.l;
      && Fits(k, x, n) && Sub(t, x) == Sub(k, x) && Elems(Sub(k, x)) <= Elems(k)
      && t.e !in Elems(n) && Elems(o) !! Elems(n) && Elems(o) !! Elems(k) && t.e !in Elems(k)
  {
    SubIn(if x in Elems(t.l) then t.l else t.r, x);
  }

  lemma ReplacedInUnion<T>(n: set<T>, k: set<T>, e: T, o: set<T>, s: set<T>)
    requires s <= k && e !in k && k !! o
    ensures (n + (k - s)) + {e} + o == n + ((k + {e} + o) - s)
    ensures o + {e} + (n + (k - s)) == n + ((o + {e} + k) - s)
  {
  }

  lemma GraftStep(t: Tree, x: Extent, n: Tree)
    requires t.Node?
    ensures Graft(t, x, n) == if t.e == x then n
      else if x in Elems(t.l) then Node(Graft(t.l, x, n), t.e, t.r)
      else Node(t.l, t.e, Graft(t.r, x, n))
  {
  }

  lemma SubStep(t: Tree, y: Extent)
    requires t.Node?
    ensures Sub(t, y) == if t.e == y then t else if y in Elems(t.l) then Sub(t.l, y) else Sub(t.r, y)
  {
  }

  lemma SlotStep(t: Tree, y: Extent, top: Slot)
    requires t.Node?
    ensures SlotIn(t, y, top) == if t.e == y then top
      else if y in Elems(t.l) then SlotIn(t.l, y, LeftOf(t.e)) else SlotIn(t.r, y, RightOf(t.e))
    ensures Level(t, y) == if t.e == y then 0
      else 1 + if y in Elems(t.l) then Level(t.l, y) else Level(t.r, y)
  {
  }

  lemma FitsNode(t: Tree, x: Extent, n: Tree)
    requires Fits(t, x, n)
    ensures t.Node? && (t.e == x ==> Sub(t, x) == t)
  {
  }

  lemma {:induction false} GraftElems(t: Tree, x: Extent, n: Tree)
    requires Fits(t, x, n)
    ensures Elems(Graft(t, x, n)) == Elems(n) + (Elems(t) - Elems(Sub(t, x)))
  {
    hide Fits, Graft, Sub;
    FitsNode(t, x, n);
    GraftStep(t, x, n);
    if t.e != x {
      HalfFits(t, x, n);
      var k, o := if x in Elems(t.l) then t.l else t.r, if x in Elems(t.l) then t.r else t.l;
      GraftElems(k, x, n);
      ReplacedInUnion(Elems(n), Elems(k), t.e, Elems(o), Elems(Sub(k, x)));
    }
  }

  lemma {:induction false} GraftDistinct(t: Tree, x: Extent, n: Tree)
    requires Fits(t, x, n)
    ensures Distinct(Graft(t, x, n))
  {
    if t.e == x {
    } else if x in Elems(t.l) {
      SubIn(t.l, x);
      GraftElems(t.l, x, n);
      GraftDistinct(t.l, x, n);
    } else {
      SubIn(t.r, x);
      GraftElems(t.r, x, n);
      GraftDistinct(t.r, x, n);
    }
  }

  lemma GraftRoot(t: Tree, x: Extent, n: Tree, top: Slot)
    requires Distinct(t) && x in Elems(t) && Owner(top) !in Elems(t)
    requires (Owner(top) == null ==> top.RootOf? || top.NoSlot?)
    ensures Root(Graft(t, x, n)) == if SlotIn(t, x, top) == top then Root(n) else Root(t)
  {
    SlotOwner(t, x, top);
  }

  lemma {:induction false} GraftInorder(t: Tree, x: Extent, n: Tree)
    requires x in Elems(t)
    ensures Inorder(Graft(t, x, n)) == Before(t, x) + Inorder(n) + After(t, x)
  {
    if t.e == x {
      assert Inorder(n) == [] + Inorder(n) + [];
    } else if x in Elems(t.l) {
      GraftInorder(t.l, x, n);
      SplitLater(Before(t.l, x), Inorder(n), After(t.l, x), [t.e], Inorder(t.r));
    } else {
      GraftInorder(t.r, x, n);
      SplitLater(Inorder(t.l), [t.e], Before(t.r, x), Inorder(n), After(t.r, x));
    }
  }

  /** Links inside the new subtree. */
  lemma {:induction false} GraftInside(t: Tree, x: Extent, n: Tree, y: Extent, top: Slot)
    requires Fits(t, x, n) && y in Elems(n)
    ensures Sub(Graft(t, x, n), y) == Sub(n, y)
    ensures SlotIn(Graft(t, x, n), y, top) == SlotIn(n, y, SlotIn(t, x, top))
    ensures Level(Graft(t, x, n), y) == Level(t, x) + Level(n, y)
  {
    hide Fits, Elems, Sub, SlotIn, Level, Graft;
    FitsNode(t, x, n);
    GraftStep(t, x, n);
    SlotStep(t, x, top);
    if t.e != x {
      HalfFits(t, x, n);
      SubStep(Graft(t, x, n), y);
      SlotStep(Graft(t, x, n), y, top);
      if x in Elems(t.l) {
        GraftElems(t.l, x, n);
        GraftInside(t.l, x, n, y, LeftOf(t.e));
      } else {
        GraftElems(t.r, x, n);
        GraftInside(t.r, x, n, y, RightOf(t.e));
      }
    }
  }

  /** The children of y are read off the half of t that holds y. */
  lemma KidsWithin(t: Tree, y: Extent)
    requires Distinct(t) && y in Elems(t)
    ensures y == t.e ==> LeftKid(t, y) == Root(t.l) && RightKid(t, y) == Root(t.r)
    ensures y in Elems(t.l) ==> y != t.e && LeftKid(t, y) == LeftKid(t.l, y) && RightKid(t, y) == RightKid(t.l, y)
    ensures y in Elems(t.r) ==> y != t.e && LeftKid(t, y) == LeftKid(t.r, y) && RightKid(t, y) == RightKid(t.r, y)
  {
  }

  /** y, outside the replaced subtree, is in the same half as before, and so is the replacement. */
  lemma SameHalf(t: Tree, x: Extent, n: Tree, y: Extent)
    requires Fits(t, x, n) && t.e != x && y in Elems(t) && y !in Elems(Sub(t, x))
    ensures x in Elems(t.l) ==>
      && Fits(t.l, x, n) && Sub(t, x) == Sub(t.l, x) && (y in Elems(Graft(t.l, x, n)) <==> y in Elems(t.l))
    ensures x !in Elems(t.l) ==>
      && x in Elems(t.r) && Fits(t.r, x, n) && Sub(t, x) == Sub(t.r, x)
      && (y in Elems(Graft(t.r, x, n)) <==> y in Elems(t.r))
  {
    if x in Elems(t.l) {
      SubIn(t.l, x);
      GraftElems(t.l, x, n);
    } else {
      SubIn(t.r, x);
      GraftElems(t.r, x, n);
    }
  }

  /** y stays in the tree. */
  lemma StaysIn(t: Tree, x: Extent, n: Tree, y: Extent)
    requires Fits(t, x, n) && y in Elems(t) && y !in Elems(Sub(t, x))
    ensures t.Node? && t.e != x && y in Elems(Graft(t, x, n))
    ensures t.e == y || y in Elems(t.l) || y in Elems(t.r)
  {
    GraftElems(t, x, n);
  }

  lemma {:induction false} GraftOutsideSlot(t: Tree, x: Extent, n: Tree, y: Extent, top: Slot)
    requires Fits(t, x, n) && y in Elems(t) && y !in Elems(Sub(t, x))
    ensures SlotIn(Graft(t, x, n), y, top) == SlotIn(t, y, top) && Level(Graft(t, x, n), y) == Level(t, y)
  {
    hide Fits, Elems, Sub, SlotIn, Level, Graft, Distinct;
    StaysIn(t, x, n, y);
    SameHalf(t, x, n, y);
    GraftStep(t, x, n);
    SlotStep(t, y, top);
    SlotStep(Graft(t, x, n), y, top);
    if x in Elems(t.l) {
      if y in Elems(t.l) { GraftOutsideSlot(t.l, x, n, y, LeftOf(t.e)); }
    } else {
      if y in Elems(t.r) { GraftOutsideSlot(t.r, x, n, y, RightOf(t.e)); }
    }
  }

  lemma {:induction false} GraftOutsideKids(t: Tree, x: Extent, n: Tree, y: Extent, top: Slot)
    requires Fits(t, x, n) && y in Elems(t) && y !in Elems(Sub(t, x)) && Owner(top) !in Elems(t)
    ensures LeftKid(Graft(t, x, n), y) == if SlotIn(t, x, top) == LeftOf(y) then Root(n) else LeftKid(t, y)
    ensures RightKid(Graft(t, x, n), y) == if SlotIn(t, x, top) == RightOf(y) then Root(n) else RightKid(t, y)
  {
    hide LeftKid, RightKid, Level, Sub;
    GraftDistinct(t, x, n);
    StaysIn(t, x, n, y);
    SameHalf(t, x, n, y);
    KidsWithin(t, y);
    KidsWithin(Graft(t, x, n), y);
    if x in Elems(t.l) {
      if y in Elems(t.l) { GraftOutsideKids(t.l, x, n, y, LeftOf(t.e)); } else { SlotOwner(t.l, x, LeftOf(t.e)); }
    } else {
      if y in Elems(t.r) { GraftOutsideKids(t.r, x, n, y, RightOf(t.e)); } else { SlotOwner(t.r, x, RightOf(t.e)); }
    }
  }

  /** Links outside the replaced subtree: only the slot that held x changes. */
  lemma GraftOutside(t: Tree, x: Extent, n: Tree, y: Extent, top: Slot)
    requires Fits(t, x, n) && y in Elems(t) && y !in Elems(Sub(t, x)) && Owner(top) !in Elems(t)
    ensures var g := Graft(t, x, n);
      && LeftKid(g, y) == (if SlotIn(t, x, top) == LeftOf(y) then Root(n) else LeftKid(t, y))
      && RightKid(g, y) == (if SlotIn(t, x, top) == RightOf(y) then Root(n) else RightKid(t, y))
      && SlotIn(g, y, top) == SlotIn(t, y, top)
      && Level(g, y) == Level(t, y)
  {
    hide *;
    GraftOutsideKids(t, x, n, y, top);
    GraftOutsideSlot(t, x, n, y, top);
  }

  // ---- rotations

  ghost predicate IsSub(t: Tree, a: Tree) {
    a.Node? ==> a.e in Elems(t) && Sub(t, a.e) == a
  }

  lemma OwnerOutside(t: Tree, x: Extent, top: Slot)
    requires Distinct(t) && x in Elems(t) && Owner(top) !in Elems(t)
    ensures Owner(SlotIn(t, x, top)) !in Elems(Sub(t, x))
  {
    SubIn(t, x);
    SlotOwner(t, x, top);
    var p := Owner(SlotIn(t, x, top));
    if p in Elems(Sub(t, x)) {
      SubOf(t, x, p, top);
    }
  }

  /** Links inside a subtree that is carried over whole: only its root's slot depends on the surroundings. */
  lemma CarriedLinks(t: Tree, a: Tree, y: Extent, top: Slot, top': Slot)
    requires Distinct(t) && IsSub(t, a) && y in Elems(a)
    ensures Sub(a, y) == Sub(t, y)
    ensures SlotIn(a, y, top') == if y == Root(a) then top' else SlotIn(t, y, top)
  {
    SubIn(t, a.e);
    SubOf(t, a.e, y, top);
    SlotOwner(a, y, top');
    SlotOwner(a, y, SlotIn(t, a.e, top));
  }

  ghost function Joined(a: Tree, L: Extent, b: Tree, T: Extent, c: Tree, R: Extent, d: Tree): Tree {
    Node(Node(a, L, b), T, Node(c, R, d))
  }

  lemma JoinedLinks(a: Tree, L: Extent, b: Tree, T: Extent, c: Tree, R: Extent, d: Tree, y: Extent, up: Slot)
    requires Distinct(Joined(a, L, b, T, c, R, d)) && y in Elems(Joined(a, L, b, T, c, R, d))
    ensures var n := Joined(a, L, b, T, c, R, d);
      if y == T then Sub(n, y) == n && SlotIn(n, y, up) == up
      else if y == L then Sub(n, y) == n.l && SlotIn(n, y, up) == LeftOf(T)
      else if y == R then Sub(n, y) == n.r && SlotIn(n, y, up) == RightOf(T)
      else if y in Elems(a) then Sub(n, y) == Sub(a, y) && SlotIn(n, y, up) == SlotIn(a, y, LeftOf(L))
      else if y in Elems(b) then Sub(n, y) == Sub(b, y) && SlotIn(n, y, up) == SlotIn(b, y, RightOf(L))
      else if y in Elems(c) then Sub(n, y) == Sub(c, y) && SlotIn(n, y, up) == SlotIn(c, y, LeftOf(R))
      else y in Elems(d) && Sub(n, y) == Sub(d, y) && SlotIn(n, y, up) == SlotIn(d, y, RightOf(R))
    ensures y in {T, L, R} || y in Elems(a) ==> y != Root(b) && y != Root(c) && y != Root(d)
    ensures y in {T, L, R} || y in Elems(b) ==> y != Root(a) && y != Root(c) && y != Root(d)
    ensures y in {T, L, R} || y in Elems(c) ==> y != Root(a) && y != Root(b) && y != Root(d)
    ensures y in {T, L, R} || y in Elems(d) ==> y != Root(a) && y != Root(b) && y != Root(c)
  {
    var n := Joined(a, L, b, T, c, R, d);
    assert Elems(n.l) == Elems(a) + {L} + Elems(b);
    assert Elems(n.r) == Elems(c) + {R} + Elems(d);
  }

  /** The links after a rotation at x, in terms of those before it. */
  lemma RotateLinks(t: Tree, x: Extent, a: Tree, L: Extent, b: Tree, T: Extent, c: Tree, R: Extent, d: Tree,
      y: Extent, top: Slot)
    requires Fits(t, x, Joined(a, L, b, T, c, R, d)) && Owner(top) !in Elems(t)
    requires Elems(Joined(a, L, b, T, c, R, d)) == Elems(Sub(t, x))
    requires IsSub(t, a) && IsSub(t, b) && IsSub(t, c) && IsSub(t, d)
    requires y in Elems(t)
    ensures var g := Graft(t, x, Joined(a, L, b, T, c, R, d)); var up := SlotIn(t, x, top);
      && LeftKid(g, y) == (if y == T then L else if y == L then Root(a) else if y == R then Root(c)
          else if up == LeftOf(y) then T else LeftKid(t, y))
      && RightKid(g, y) == (if y == T then R else if y == L then Root(b) else if y == R then Root(d)
          else if up == RightOf(y) then T else RightKid(t, y))
      && SlotIn(g, y, top) == (if y == T then up else if y == L then LeftOf(T) else if y == R then RightOf(T)
          else if y == Root(a) then LeftOf(L) else if y == Root(b) then RightOf(L)
          else if y == Root(c) then LeftOf(R) else if y == Root(d) then RightOf(R) else SlotIn(t, y, top))
  {
    var n := Joined(a, L, b, T, c, R, d);
    if y in Elems(n) {
      GraftInside(t, x, n, y, top);
      OwnerOutside(t, x, top);
      JoinedLinks(a, L, b, T, c, R, d, y, SlotIn(t, x, top));
      hide Elems, SlotIn, Graft, Sub;
      if y in Elems(a) { CarriedLinks(t, a, y, top, LeftOf(L)); }
      else if y in Elems(b) { CarriedLinks(t, b, y, top, RightOf(L)); }
      else if y in Elems(c) { CarriedLinks(t, c, y, top, LeftOf(R)); }
      else if y in Elems(d) { CarriedLinks(t, d, y, top, RightOf(R)); }
    } else {
      GraftOutside(t, x, n, y, top);
      assert Elems(n) == Elems(a) + {L} + Elems(b) + {T} + (Elems(c) + {R} + Elems(d));
    }
  }

  /** Seven references no two of which are the same extent; the last four may be null. */
  ghost predicate Unaliased(L: Extent, T: Extent, R: Extent, LL: Extent?, LR: Extent?, RL: Extent?, RR: Extent?) {
    && L != T && L != R && T != R
    && L != LL && L != LR && L != RL && L != RR && T != LL && T != LR && T != RL && T != RR
    && R != LL && R != LR && R != RL && R != RR
    && (LL == null || (LL != LR && LL != RL && LL != RR)) && (LR == null || (LR != RL && LR != RR))
    && (RL == null || RL != RR)
  }

  lemma JoinedNodes(a: Tree, L: Extent, b: Tree, T: Extent, c: Tree, R: Extent, d: Tree)
    requires Distinct(Joined(a, L, b, T, c, R, d))
    ensures Unaliased(L, T, R, Root(a), Root(b), Root(c), Root(d))
  {
    var n := Joined(a, L, b, T, c, R, d);
    assert Distinct(n.l) && Distinct(n.r) && Elems(n.l) !! Elems(n.r);
    assert Elems(n.l) == Elems(a) + {L} + Elems(b);
    assert Elems(n.r) == Elems(c) + {R} + Elems(d);
    assert a.Node? ==> Root(a) in Elems(n.l);
    assert b.Node? ==> Root(b) in Elems(n.l);
    assert c.Node? ==> Root(c) in Elems(n.r);
    assert d.Node? ==> Root(d) in Elems(n.r);
  }

  /** The extents a rotation writes. */
  lemma RotateNodes(t: Tree, x: Extent, a: Tree, L: Extent, b: Tree, T: Extent, c: Tree, R: Extent, d: Tree, top: Slot)
    requires Fits(t, x, Joined(a, L, b, T, c, R, d)) && Owner(top) !in Elems(t)
    requires Elems(Joined(a, L, b, T, c, R, d)) == Elems(Sub(t, x))
    ensures L in Elems(t) && T in Elems(t) && R in Elems(t)
    ensures (a.Node? ==> a.e in Elems(t)) && (b.Node? ==> b.e in Elems(t))
    ensures (c.Node? ==> c.e in Elems(t)) && (d.Node? ==> d.e in Elems(t))
    ensures var p := Owner(SlotIn(t, x, top)); p != L && p != T && p != R
    ensures SlotIn(t, x, top) == top
      || ((SlotIn(t, x, top).LeftOf? || SlotIn(t, x, top).RightOf?) && SlotIn(t, x, top).e in Elems(t))
  {
    assert Elems(Sub(t, x)) <= Elems(t) by { SubIn(t, x); }
    assert {L, T, R} + Elems(a) + Elems(b) + Elems(c) + Elems(d) <= Elems(Joined(a, L, b, T, c, R, d));
    assert {L, T, R} <= Elems(Sub(t, x));
    assert (a.Node? ==> a.e in Elems(a)) && (b.Node? ==> b.e in Elems(b));
    assert (c.Node? ==> c.e in Elems(c)) && (d.Node? ==> d.e in Elems(d));
    hide Elems, Distinct, Sub, SlotIn, LeftKid, RightKid, Level;
    SlotOwner(t, x, top);
    OwnerOutside(t, x, top);
  }

  lemma RotateShape(t: Tree, x: Extent, a: Tree, L: Extent, b: Tree, T: Extent, c: Tree, R: Extent, d: Tree, top: Slot)
    requires Fits(t, x, Joined(a, L, b, T, c, R, d)) && top.RootOf?
    requires Elems(Joined(a, L, b, T, c, R, d)) == Elems(Sub(t, x))
    ensures var g := Graft(t, x, Joined(a, L, b, T, c, R, d));
      Elems(g) == Elems(t) && Distinct(g) && Root(g) == if SlotIn(t, x, top) == top then T else Root(t)
  {
    hide Elems, SlotIn, Graft, Distinct, Sub;
    SubIn(t, x);
    GraftElems(t, x, Joined(a, L, b, T, c, R, d));
    GraftDistinct(t, x, Joined(a, L, b, T, c, R, d));
    GraftRoot(t, x, Joined(a, L, b, T, c, R, d), top);
  }

  // ---- neighbours in the tree

  lemma SubKids(t: Tree, x: Extent)
    requires Distinct(t) && x in Elems(t)
    ensures Sub(t, x) == Node(LeftSub(t, x), x, RightSub(t, x))
    ensures Distinct(Sub(t, x)) && Elems(Sub(t, x)) <= Elems(t)
    ensures IsSub(t, LeftSub(t, x)) && IsSub(t, RightSub(t, x))
  {
    SubIn(t, x);
    var s := Sub(t, x);
    if s.l.Node? { SubOf(t, x, s.l.e, NoSlot); }
    if s.r.Node? { SubOf(t, x, s.r.e, NoSlot); }
  }

  /** A child is in the tree and its slot is its parent's child pointer. */
  lemma KidSlots(t: Tree, x: Extent, top: Slot)
    requires Distinct(t) && x in Elems(t)
    ensures var k := LeftKid(t, x);
      k != null ==> k in Elems(t) && SlotIn(t, k, top) == LeftOf(x) && k in Elems(Sub(t, x)) && k != x
    ensures var k := RightKid(t, x);
      k != null ==> k in Elems(t) && SlotIn(t, k, top) == RightOf(x) && k in Elems(Sub(t, x)) && k != x
    ensures LeftKid(t, x) != null ==> LeftKid(t, x) != RightKid(t, x)
  {
    SubIn(t, x);
    var s := Sub(t, x);
    if s.l.Node? { SubOf(t, x, s.l.e, top); }
    if s.r.Node? { SubOf(t, x, s.r.e, top); }
  }
}
