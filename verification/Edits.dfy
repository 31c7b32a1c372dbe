/** The three ways the extent tree changes besides rotation: an extent with at
    most one child is spliced out, an extent is substituted by another, and a
    leaf is attached. */
module Edits {
  import opened Sequences
  import opened Extents
  import opened Trees

  ghost function ElemOrNull(s: seq<Extent>, i: int): Extent? {
    if 0 <= i < |s| then s[i] else null
  }

  /** The neighbours of the j-th element once the k-th is gone: only the two around the gap change. */
  lemma WithoutNeighbours(s: seq<Extent>, k: nat, j: nat)
    requires k < |s| && j < |s| - 1
    ensures var w, i := Without(s, k), if j < k then j else j + 1;
      && |w| == |s| - 1 && w[j] == s[i]
      && ElemOrNull(w, j - 1) == ElemOrNull(s, if i == k + 1 then k - 1 else i - 1)
      && ElemOrNull(w, j + 1) == ElemOrNull(s, if i + 1 == k then k + 1 else i + 1)
  {
  }

  /** The neighbours after inserting x at k. */
  lemma InsertedNeighbours(s: seq<Extent>, k: nat, x: Extent, j: nat)
    requires k <= |s| && j < |s|
    ensures var w, i := Inserted(s, k, x), if j < k then j else j + 1;
      && |w| == |s| + 1 && w[k] == x && w[i] == s[j]
      && ElemOrNull(w, k - 1) == ElemOrNull(s, k - 1) && ElemOrNull(w, k + 1) == ElemOrNull(s, k)
      && ElemOrNull(w, i - 1) == (if j == k then x else ElemOrNull(s, j - 1))
      && ElemOrNull(w, i + 1) == (if j + 1 == k then x else ElemOrNull(s, j + 1))
  {
  }

  /** Dropping an element is dropping its predecessor and putting that in its place. */
  lemma DropViaPredecessor<T>(s: seq<T>, k: nat)
    requires 0 < k < |s|
    ensures |Without(s, k - 1)| == |s| - 1 && Without(s, k - 1)[k - 1] == s[k]
    ensures Without(s, k - 1)[k - 1 := s[k - 1]] == Without(s, k)
  {
  }

  /** The position of x in order. */
  ghost function Rank(t: Tree, x: Extent): nat {
    |Before(t, x)| + |Inorder(LeftSub(t, x))|
  }

  /** A sequence taken apart around one element. */
  lemma AroundElement<T>(b: seq<T>, l: seq<T>, x: T, r: seq<T>, a: seq<T>, s: seq<T>)
    requires s == b + (l + [x] + r) + a
    ensures var i := |b| + |l|;
      i < |s| && s[i] == x && s[..i] == b + l && s[i + 1..] == r + a
  {
    assert s == (b + l) + ([x] + (r + a));
  }

  /** A sequence with one element replaced or dropped, from its parts. */
  lemma FromParts<T>(s: seq<T>, i: nat, b: seq<T>, l: seq<T>, n: T, r: seq<T>, a: seq<T>)
    requires i < |s| && s[..i] == b + l && s[i + 1..] == r + a
    ensures b + (l + [n] + r) + a == s[i := n]
    ensures b + (l + r) + a == Without(s, i)
  {
    assert s[i := n] == s[..i] + [n] + s[i + 1..];
  }

  lemma SubOrder(t: Tree, x: Extent)
    requires Distinct(t) && x in Elems(t)
    ensures Inorder(Sub(t, x)) == Inorder(LeftSub(t, x)) + [x] + Inorder(RightSub(t, x))
  {
    hide Elems, Sub, Distinct;
    SubIn(t, x);
  }

  lemma RankIs(t: Tree, x: Extent)
    requires Distinct(t) && x in Elems(t)
    ensures Rank(t, x) < |Inorder(t)| && Inorder(t)[Rank(t, x)] == x
    ensures Inorder(t)[..Rank(t, x)] == Before(t, x) + Inorder(LeftSub(t, x))
    ensures Inorder(t)[Rank(t, x) + 1..] == Inorder(RightSub(t, x)) + After(t, x)
  {
    hide Elems, LeftSub, RightSub, Before, After, Sub, Inorder, Distinct;
    SubOrder(t, x);
    SubIn(t, x);
    AroundElement(Before(t, x), Inorder(LeftSub(t, x)), x, Inorder(RightSub(t, x)), After(t, x), Inorder(t));
  }

  lemma RankUnique(t: Tree, x: Extent, i: nat)
    requires Distinct(t) && i < |Inorder(t)| && Inorder(t)[i] == x
    ensures x in Elems(t) && i == Rank(t, x)
  {
    InorderElems(t);
    assert x in SetOf(Inorder(t));
    InorderNoDup(t);
    RankIs(t, x);
  }

  // ---- splicing out

  ghost function OnlyChild(t: Tree, x: Extent): Tree {
    if LeftSub(t, x).Node? then LeftSub(t, x) else RightSub(t, x)
  }

  ghost function Spliced(t: Tree, x: Extent): Tree {
    Graft(t, x, OnlyChild(t, x))
  }

  ghost predicate CanSplice(t: Tree, x: Extent) {
    Distinct(t) && x in Elems(t) && (LeftSub(t, x).Nil? || RightSub(t, x).Nil?)
  }

  lemma SpliceFits(t: Tree, x: Extent)
    requires CanSplice(t, x)
    ensures Fits(t, x, OnlyChild(t, x)) && IsSub(t, OnlyChild(t, x))
    ensures Elems(Sub(t, x)) == Elems(OnlyChild(t, x)) + {x} && x !in Elems(OnlyChild(t, x))
    ensures Elems(Sub(t, x)) <= Elems(t)
  {
    SubKids(t, x);
    var l, r := LeftSub(t, x), RightSub(t, x);
    assert Elems(Sub(t, x)) == Elems(l) + {x} + Elems(r);
  }

  lemma OnlyChildOrder(t: Tree, x: Extent)
    requires CanSplice(t, x)
    ensures Inorder(OnlyChild(t, x)) == Inorder(LeftSub(t, x)) + Inorder(RightSub(t, x))
  {
    hide Elems, Sub, Distinct;
  }

  lemma SpliceOrder(t: Tree, x: Extent)
    requires CanSplice(t, x)
    ensures Rank(t, x) < |Inorder(t)| && Inorder(Spliced(t, x)) == Without(Inorder(t), Rank(t, x))
  {
    hide Elems, Sub, Distinct, Graft, Inorder, LeftSub, RightSub, Before, After, OnlyChild;
    var l, r := LeftSub(t, x), RightSub(t, x);
    OnlyChildOrder(t, x);
    RankIs(t, x);
    GraftInorder(t, x, OnlyChild(t, x));
    FromParts(Inorder(t), Rank(t, x), Before(t, x), Inorder(l), x, Inorder(r), After(t, x));
  }

  lemma SpliceShape(t: Tree, x: Extent, top: Slot)
    requires CanSplice(t, x) && top.RootOf?
    ensures var g := Spliced(t, x);
      && Elems(g) == Elems(t) - {x} && Distinct(g)
      && Root(g) == (if SlotIn(t, x, top) == top then Root(OnlyChild(t, x)) else Root(t))
  {
    hide Elems, Sub, Distinct, Graft, Inorder, SlotIn, LeftSub, RightSub;
    SpliceFits(t, x);
    GraftElems(t, x, OnlyChild(t, x));
    GraftDistinct(t, x, OnlyChild(t, x));
    GraftRoot(t, x, OnlyChild(t, x), top);
  }

  lemma SpliceLinks(t: Tree, x: Extent, y: Extent, top: Slot)
    requires CanSplice(t, x) && top.RootOf? && y in Elems(t) && y != x
    ensures var g, up, k := Spliced(t, x), SlotIn(t, x, top), Root(OnlyChild(t, x));
      && LeftKid(g, y) == (if up == LeftOf(y) then k else LeftKid(t, y))
      && RightKid(g, y) == (if up == RightOf(y) then k else RightKid(t, y))
      && SlotIn(g, y, top) == (if y == k then up else SlotIn(t, y, top))
  {
    var c := OnlyChild(t, x);
    assert c.Node? ==> Root(c) in Elems(c);
    hide Elems, Sub, Distinct, Graft, SlotIn, OnlyChild;
    SpliceFits(t, x);
    if y in Elems(c) {
      GraftInside(t, x, c, y, top);
      CarriedLinks(t, c, y, top, SlotIn(t, x, top));
      OwnerOutside(t, x, top);
    } else {
      GraftOutside(t, x, c, y, top);
    }
  }

  // ---- substitution

  ghost function Substituted(t: Tree, o: Extent, n: Extent): Tree {
    Graft(t, o, Node(LeftSub(t, o), n, RightSub(t, o)))
  }

  lemma SubstituteFits(t: Tree, o: Extent, n: Extent)
    requires Distinct(t) && o in Elems(t) && n !in Elems(t)
    ensures Fits(t, o, Node(LeftSub(t, o), n, RightSub(t, o)))
    ensures Elems(Node(LeftSub(t, o), n, RightSub(t, o))) == Elems(Sub(t, o)) - {o} + {n}
    ensures IsSub(t, LeftSub(t, o)) && IsSub(t, RightSub(t, o))
    ensures o in Elems(Sub(t, o)) && Elems(Sub(t, o)) <= Elems(t)
  {
    SubKids(t, o);
    var l, r := LeftSub(t, o), RightSub(t, o);
    assert Elems(Sub(t, o)) == Elems(l) + {o} + Elems(r);
    assert Elems(Node(l, n, r)) == Elems(l) + {n} + Elems(r);
  }

  lemma InorderNode(l: Tree, n: Extent, r: Tree)
    ensures Inorder(Node(l, n, r)) == Inorder(l) + [n] + Inorder(r)
  {
  }

  lemma SubstituteOrder(t: Tree, o: Extent, n: Extent)
    requires Distinct(t) && o in Elems(t)
    ensures Rank(t, o) < |Inorder(t)| && Inorder(Substituted(t, o, n)) == Inorder(t)[Rank(t, o) := n]
  {
    hide Elems, Sub, Distinct, Graft, Inorder, LeftSub, RightSub, Before, After;
    var l, r := LeftSub(t, o), RightSub(t, o);
    InorderNode(l, n, r);
    RankIs(t, o);
    GraftInorder(t, o, Node(l, n, r));
    FromParts(Inorder(t), Rank(t, o), Before(t, o), Inorder(l), n, Inorder(r), After(t, o));
  }

  lemma SubstituteShape(t: Tree, o: Extent, n: Extent, top: Slot)
    requires Distinct(t) && o in Elems(t) && n !in Elems(t) && top.RootOf?
    ensures var g := Substituted(t, o, n);
      && Elems(g) == Elems(t) - {o} + {n} && Distinct(g)
      && Root(g) == (if SlotIn(t, o, top) == top then n else Root(t))
  {
    hide Elems, Sub, Distinct, Graft, Inorder, SlotIn, LeftSub, RightSub, Rank;
    SubstituteFits(t, o, n);
    GraftElems(t, o, Node(LeftSub(t, o), n, RightSub(t, o)));
    GraftDistinct(t, o, Node(LeftSub(t, o), n, RightSub(t, o)));
    GraftRoot(t, o, Node(LeftSub(t, o), n, RightSub(t, o)), top);
  }

  lemma SubstituteLinks(t: Tree, o: Extent, n: Extent, y: Extent, top: Slot)
    requires Distinct(t) && o in Elems(t) && n !in Elems(t) && top.RootOf?
    requires y == n || (y in Elems(t) && y != o)
    ensures var g, up := Substituted(t, o, n), SlotIn(t, o, top);
      && LeftKid(g, y) == (if y == n then LeftKid(t, o) else if up == LeftOf(y) then n else LeftKid(t, y))
      && RightKid(g, y) == (if y == n then RightKid(t, o) else if up == RightOf(y) then n else RightKid(t, y))
      && SlotIn(g, y, top) == (if y == n then up else if y == LeftKid(t, o) then LeftOf(n)
          else if y == RightKid(t, o) then RightOf(n) else SlotIn(t, y, top))
  {
    var l, r := LeftSub(t, o), RightSub(t, o);
    var m := Node(l, n, r);
    assert Elems(m) == Elems(l) + {n} + Elems(r);
    SubstituteFits(t, o, n);
    OwnerOutside(t, o, top);
    KidSlots(t, o, top);
    if y in Elems(m) {
      GraftInside(t, o, m, y, top);
      if y in Elems(l) { CarriedLinks(t, l, y, top, LeftOf(n)); }
      else if y in Elems(r) { CarriedLinks(t, r, y, top, RightOf(n)); }
    } else {
      GraftOutside(t, o, m, y, top);
    }
  }

  // ---- attaching a leaf

  ghost function Leaf(x: Extent): Tree { Node(Nil, x, Nil) }

  /** p with x as a new leaf on its free side. */
  ghost function Hung(t: Tree, p: Extent, x: Extent, right: bool): Tree {
    if right then Node(LeftSub(t, p), p, Leaf(x)) else Node(Leaf(x), p, RightSub(t, p))
  }

  ghost function Attached(t: Tree, p: Extent, x: Extent, right: bool): Tree {
    Graft(t, p, Hung(t, p, x, right))
  }

  ghost predicate CanAttach(t: Tree, p: Extent, x: Extent, right: bool) {
    && Distinct(t) && p in Elems(t) && x !in Elems(t)
    && (if right then RightSub(t, p).Nil? else LeftSub(t, p).Nil?)
  }

  lemma AttachFits(t: Tree, p: Extent, x: Extent, right: bool)
    requires CanAttach(t, p, x, right)
    ensures Fits(t, p, Hung(t, p, x, right))
    ensures Elems(Hung(t, p, x, right)) == Elems(Sub(t, p)) + {x}
    ensures IsSub(t, LeftSub(t, p)) && IsSub(t, RightSub(t, p)) && Elems(Sub(t, p)) <= Elems(t)
  {
    SubKids(t, p);
    var l, r, m := LeftSub(t, p), RightSub(t, p), Hung(t, p, x, right);
    assert Elems(Sub(t, p)) == Elems(l) + {p} + Elems(r);
    assert Elems(Leaf(x)) == {x} && Distinct(Leaf(x));
    assert Elems(m) == Elems(m.l) + {p} + Elems(m.r);
  }

  lemma AttachShape(t: Tree, p: Extent, x: Extent, right: bool)
    requires CanAttach(t, p, x, right)
    ensures var g := Attached(t, p, x, right);
      Elems(g) == Elems(t) + {x} && Distinct(g) && Root(g) == Root(t)
  {
    SlotOwner(t, p, NoSlot);
    hide Elems, Sub, Distinct, LeftSub, RightSub, CanAttach;
    AttachFits(t, p, x, right);
    GraftElems(t, p, Hung(t, p, x, right));
    GraftDistinct(t, p, Hung(t, p, x, right));
  }

  lemma InsertParts<T>(s: seq<T>, i: nat, b: seq<T>, l: seq<T>, p: T, r: seq<T>, a: seq<T>, x: T)
    requires i < |s| && s[..i] == b + l && s[i] == p && s[i + 1..] == r + a
    ensures r == [] ==> b + (l + [p] + [x]) + a == Inserted(s, i + 1, x)
    ensures l == [] ==> b + ([x] + [p] + r) + a == Inserted(s, i, x)
  {
    assert s == s[..i] + [p] + s[i + 1..];
  }

  lemma HungOrder(t: Tree, p: Extent, x: Extent, right: bool)
    ensures Inorder(Hung(t, p, x, right))
      == if right then Inorder(LeftSub(t, p)) + [p] + [x] else [x] + [p] + Inorder(RightSub(t, p))
    ensures Inorder(Nil) == []
  {
    hide LeftSub, RightSub;
    assert Inorder(Leaf(x)) == [x];
  }

  lemma AttachOrder(t: Tree, p: Extent, x: Extent, right: bool)
    requires CanAttach(t, p, x, right)
    ensures Rank(t, p) < |Inorder(t)|
    ensures Inorder(Attached(t, p, x, right)) == Inserted(Inorder(t), if right then Rank(t, p) + 1 else Rank(t, p), x)
  {
    hide Elems, Sub, Distinct, Graft, Inorder, LeftSub, RightSub, Before, After, Hung;
    var l, r, m := LeftSub(t, p), RightSub(t, p), Hung(t, p, x, right);
    HungOrder(t, p, x, right);
    RankIs(t, p);
    GraftInorder(t, p, m);
    InsertParts(Inorder(t), Rank(t, p), Before(t, p), Inorder(l), p, Inorder(r), After(t, p), x);
  }

  lemma AttachLinks(t: Tree, p: Extent, x: Extent, right: bool, y: Extent, top: Slot)
    requires CanAttach(t, p, x, right) && top.RootOf?
    requires y == x || y in Elems(t)
    ensures var g := Attached(t, p, x, right);
      && LeftKid(g, y) == (if y == x then null else if y == p && !right then x else LeftKid(t, y))
      && RightKid(g, y) == (if y == x then null else if y == p && right then x else RightKid(t, y))
      && SlotIn(g, y, top) == (if y != x then SlotIn(t, y, top) else if right then RightOf(p) else LeftOf(p))
  {
    var l, r, m := LeftSub(t, p), RightSub(t, p), Hung(t, p, x, right);
    assert Elems(m) == Elems(m.l) + {p} + Elems(m.r) && Elems(Leaf(x)) == {x};
    AttachFits(t, p, x, right);
    OwnerOutside(t, p, top);
    KidSlots(t, p, top);
    SubKids(t, p);
    if y in Elems(m) {
      GraftInside(t, p, m, y, top);
      if y != x && y != p {
        if right { CarriedLinks(t, l, y, top, LeftOf(p)); } else { CarriedLinks(t, r, y, top, RightOf(p)); }
      }
    } else {
      SlotOwner(t, p, top);
      GraftOutside(t, p, m, y, top);
    }
  }

  // ---- neighbours in order

  lemma {:induction false} LastHasNoRight(l: Tree)
    requires Distinct(l) && l.Node?
    ensures |Inorder(l)| > 0
    ensures var a := Inorder(l)[|Inorder(l)| - 1]; a in Elems(l) && RightSub(l, a).Nil?
  {
    if l.r.Node? { LastHasNoRight(l.r); }
  }

  lemma {:induction false} FirstHasNoLeft(r: Tree)
    requires Distinct(r) && r.Node?
    ensures |Inorder(r)| > 0
    ensures var b := Inorder(r)[0]; b in Elems(r) && LeftSub(r, b).Nil?
  {
    if r.l.Node? { FirstHasNoLeft(r.l); }
  }

  /** The last extent of the left subtree. */
  lemma LastBelow(t: Tree, x: Extent)
    requires Distinct(t) && x in Elems(t) && LeftSub(t, x).Node?
    ensures var l := Inorder(LeftSub(t, x)); |l| > 0 && var a := l[|l| - 1];
      a in Elems(t) && a != x && a in Elems(Sub(t, x)) && RightSub(t, a).Nil?
  {
    SubKids(t, x);
    var l := LeftSub(t, x);
    assert Elems(Sub(t, x)) == Elems(l) + {x} + Elems(RightSub(t, x));
    LastHasNoRight(l);
    CarriedLinks(t, l, Inorder(l)[|Inorder(l)| - 1], NoSlot, NoSlot);
  }

  /** The predecessor of an extent with a left child lies below it and has no right child. */
  lemma Predecessor(t: Tree, x: Extent)
    requires Distinct(t) && x in Elems(t) && LeftSub(t, x).Node?
    ensures 0 < Rank(t, x) < |Inorder(t)|
    ensures var a := Inorder(t)[Rank(t, x) - 1];
      a in Elems(t) && a != x && a in Elems(Sub(t, x)) && RightSub(t, a).Nil? && Rank(t, a) == Rank(t, x) - 1
  {
    hide Inorder, Elems, Sub, LeftSub, RightSub, Before, After, SlotIn;
    RankIs(t, x);
    LastBelow(t, x);
    var l := Inorder(LeftSub(t, x));
    var k, a := Rank(t, x), l[|l| - 1];
    assert Inorder(t)[k - 1] == Inorder(t)[..k][k - 1] == a;
    RankUnique(t, a, k - 1);
  }

  /** The successor of an extent with a right child has no left child. */
  lemma Successor(t: Tree, x: Extent)
    requires Distinct(t) && x in Elems(t) && RightSub(t, x).Node?
    ensures Rank(t, x) + 1 < |Inorder(t)|
    ensures var b := Inorder(t)[Rank(t, x) + 1];
      b in Elems(t) && b != x && LeftSub(t, b).Nil? && Rank(t, b) == Rank(t, x) + 1
  {
    RankIs(t, x);
    SubKids(t, x);
    var r := RightSub(t, x);
    SubIn(t, r.e);
    FirstHasNoLeft(r);
    var k, b := Rank(t, x), Inorder(r)[0];
    assert Elems(Sub(t, x)) == Elems(LeftSub(t, x)) + {x} + Elems(r);
    hide Inorder, Elems, Sub, Before, After, SlotIn;
    assert Inorder(t)[k + 1] == Inorder(t)[k + 1..][0] == b;
    CarriedLinks(t, r, b, NoSlot, NoSlot);
    RankUnique(t, b, k + 1);
  }

  // ---- searching

  lemma AroundStep(t: Tree, y: Extent)
    requires t.Node?
    ensures Before(t, y) == if t.e == y then []
      else if y in Elems(t.l) then Before(t.l, y) else Inorder(t.l) + [t.e] + Before(t.r, y)
    ensures After(t, y) == if t.e == y then []
      else if y in Elems(t.l) then After(t.l, y) + [t.e] + Inorder(t.r) else After(t.r, y)
  {
  }

  lemma Regrouped<T>(a: seq<T>, b: seq<T>, c: seq<T>, d: seq<T>)
    ensures a + b + (c + d) == (a + b + c) + d && (a + b) + c + d == a + (b + c + d) && [] + d == d && d + [] == d
  {
  }

  /** What surrounds y, below x, in order. */
  lemma {:induction false} AroundBelow(t: Tree, x: Extent, y: Extent)
    requires Distinct(t) && x in Elems(t) && y in Elems(Sub(t, x))
    ensures Before(t, y) == Before(t, x) + Before(Sub(t, x), y)
    ensures After(t, y) == After(Sub(t, x), y) + After(t, x)
  {
    hide Before, After, Inorder, Sub;
    AroundStep(t, x);
    AroundStep(t, y);
    SubStep(t, x);
    if t.e == x {
      Regrouped([], [], After(t, y), Before(t, y));
      Regrouped([], [], [], After(t, y));
    } else {
      var k, s := if x in Elems(t.l) then t.l else t.r, Sub(t, x);
      SubIn(k, x);
      AroundBelow(k, x, y);
      Regrouped(Inorder(t.l), [t.e], Before(t.r, x), Before(s, y));
      Regrouped(After(s, y), After(t.l, x), [t.e], Inorder(t.r));
    }
  }

  lemma BesideKids(s: Tree)
    requires Distinct(s) && s.Node?
    ensures s.l.Node? ==>
      s.l.e in Elems(s) && Before(s, s.l.e) == [] && After(s, s.l.e) == [s.e] + Inorder(s.r)
    ensures s.r.Node? ==>
      s.r.e in Elems(s) && Before(s, s.r.e) == Inorder(s.l) + [s.e] && After(s, s.r.e) == []
  {
    hide Before, After, Inorder;
    if s.l.Node? {
      AroundStep(s, s.l.e);
      AroundStep(s.l, s.l.e);
    }
    if s.r.Node? {
      AroundStep(s, s.r.e);
      AroundStep(s.r, s.r.e);
    }
  }

  /** What lies before and after the children's subtrees. */
  lemma KidRange(t: Tree, x: Extent)
    requires Distinct(t) && x in Elems(t)
    ensures Rank(t, x) + 1 + |Inorder(RightSub(t, x))| + |After(t, x)| == |Inorder(t)|
    ensures LeftSub(t, x).Node? ==> (var l := LeftSub(t, x).e;
      |Before(t, l)| == |Before(t, x)| && |After(t, l)| == |Inorder(t)| - Rank(t, x))
    ensures RightSub(t, x).Node? ==> (var r := RightSub(t, x).e;
      |Before(t, r)| == Rank(t, x) + 1 && |After(t, r)| == |After(t, x)|)
  {
    hide Elems, Sub, Distinct;
    RankIs(t, x);
    SubKids(t, x);
    SubIn(t, x);
    BesideKids(Sub(t, x));
    if LeftSub(t, x).Node? { AroundBelow(t, x, LeftSub(t, x).e); }
    if RightSub(t, x).Node? { AroundBelow(t, x, RightSub(t, x).e); }
  }
}
