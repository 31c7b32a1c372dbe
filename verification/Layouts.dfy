/** Extents in all their structures at once: remove_extent, replace_extent and
    the insertion step of replace (incont.c). */
module Layouts {
  import opened Sequences
  import opened Extents
  import opened Trees
  import opened Edits
  import opened Rebalancing
  import opened Surgery
  import opened RefLists

  /** The prev/next list visits exactly s, in order. */
  ghost predicate Threaded(s: seq<Extent>, es: set<Extent>)
    reads es`prev, es`next
  {
    forall i {:trigger s[i]} | 0 <= i < |s| ::
      s[i] in es && s[i].prev == ElemOrNull(s, i - 1) && s[i].next == ElemOrNull(s, i + 1)
  }

  /** The tree, its depths and the thread through it. */
  ghost predicate TreeOk(inode: Inode, es: set<Extent>)
    reads inode`shape, inode`order, inode`flayout, es`left, es`right, es`parent, es`pivot, es`depth, es`prev, es`next
  {
    && Elems(inode.shape) == es
    && Wired(inode, inode.shape)
    && DepthsOk(es, null)
    && inode.order == Inorder(inode.shape)
    && Threaded(inode.order, es)
  }

  /** `prev` and `next` of the neighbours skip target, the k-th of the list. */
  method Unthread(target: Extent, ghost s: seq<Extent>, ghost k: nat, ghost es: set<Extent>)
    requires Threaded(s, es) && k < |s| && s[k] == target && NoDup(s)
    modifies es`prev, es`next
    ensures Threaded(Without(s, k), es - {target}) && target.prev == old(target.prev)
  {
    hide Without, NoDup;
    DupFree(s);
    WithoutAt(s, k);
    assert k > 0 ==> s[k - 1] in es;
    assert k + 1 < |s| ==> s[k + 1] in es;
    if target.prev != null {
      target.prev.next := target.next;
    }
    if target.next != null {
      target.next.prev := target.prev;
    }
    forall j | 0 <= j < |Without(s, k)| ensures var w := Without(s, k);
      w[j] in es - {target} && w[j].prev == ElemOrNull(w, j - 1) && w[j].next == ElemOrNull(w, j + 1)
    {
      WithoutNeighbours(s, k, j);
      assert s[if j < k then j else j + 1] in es;
    }
  }

  lemma PrevAt(s: seq<Extent>, es: set<Extent>, k: nat)
    requires Threaded(s, es) && k < |s|
    ensures s[k].prev == ElemOrNull(s, k - 1)
  {
  }

  /** target leaves the list and the tree. */
  method Detach(inode: Inode, target: Extent, ghost es: set<Extent>)
    requires TreeOk(inode, es) && target in es
    modifies inode`flayout, inode`shape, inode`order, es`left, es`right, es`parent, es`pivot, es`depth, es`prev, es`next
    ensures TreeOk(inode, es - {target})
    ensures inode.order == Without(old(inode.order), old(Rank(inode.shape, target)))
  {
    hide Elems, Inorder, Distinct, Rank, Without, NoDup, DepthsOk, LinksOk, Wired, Threaded;
    ghost var t := inode.shape;
    WiredDistinct(inode, t);
    RankIs(t, target);
    InorderNoDup(t);
    PrevAt(inode.order, es, Rank(t, target));
    Unthread(target, inode.order, Rank(t, target), es);
    inode.shape := RemoveFromTree(inode, es, t, target);
    inode.order := Without(inode.order, Rank(t, target));
  }

  /** remove_extent: target leaves the list, the tree and its object's references. */
  method RemoveExtent(inode: Inode, target: Extent, triggered: bool, ghost es: set<Extent>, ghost gone: Dobject?)
    requires TreeOk(inode, es) && es <= inode.exts && target in es
    requires RefsOk(inode) && MapOk(inode, gone) && (triggered ==> target.dobj != gone)
    modifies inode`flayout, inode`shape, inode`order, es`left, es`right, es`parent, es`pivot, es`depth, es`prev, es`next
    modifies inode`exts, inode`numExts, inode`doMap, inode`dobjs
    modifies {target.dobj}`refs, {target.dobj}`numRefs, {target.dobj}`refSeq, inode.exts`prevRef, inode.exts`nextRef
    ensures TreeOk(inode, es - {target})
    ensures inode.order == Without(old(inode.order), old(Rank(inode.shape, target)))
    ensures RefsOk(inode) && MapOk(inode, gone) && inode.exts == old(inode.exts) - {target}
    ensures exists k | 0 <= k < |old(target.dobj.refSeq)| ::
      old(target.dobj.refSeq)[k] == target && target.dobj.refSeq == Without(old(target.dobj.refSeq), k)
    ensures if triggered && target.dobj.refSeq == []
      then inode.dobjs == old(inode.dobjs) - {target.dobj} && inode.doMap == old(inode.doMap) - {target.dobj.addr}
      else inode.dobjs == old(inode.dobjs) && inode.doMap == old(inode.doMap)
  {
    hide TreeOk, Inorder, Rank, Without, RefListOk, MapOk, RefsOk;
    Detach(inode, target, es);
    ReleaseExtent(inode, target, triggered, gone);
  }

  /** n takes o's place between o's neighbours. */
  method Rethread(o: Extent, n: Extent, ghost es: set<Extent>)
    requires n !in es && o in es && (o.prev != null ==> o.prev in es) && (o.next != null ==> o.next in es)
    modifies es`prev, es`next, {n}`prev, {n}`next
    ensures n.prev == old(o.prev) && n.next == old(o.next)
    ensures forall y <- es :: y.next == if y == old(o.prev) then n else old(y.next)
    ensures forall y <- es :: y.prev == if y == old(o.next) then n else old(y.prev)
  {
    n.prev := o.prev;
    n.next := o.next;
    if n.prev != null { n.prev.next := n; }
    if n.next != null { n.next.prev := n; }
  }

  /** The ends of a list link where the list says. */
  lemma ThreadAt(s: seq<Extent>, es: set<Extent>, k: nat)
    requires Threaded(s, es) && k < |s|
    ensures s[k] in es && s[k].prev == ElemOrNull(s, k - 1) && s[k].next == ElemOrNull(s, k + 1)
    ensures (k > 0 ==> s[k - 1] in es) && (k + 1 < |s| ==> s[k + 1] in es)
  {
  }

  /** n takes the place of o, the k-th of the list. */
  method RethreadAt(o: Extent, n: Extent, ghost s: seq<Extent>, ghost k: nat, ghost es: set<Extent>)
    requires Threaded(s, es) && k < |s| && s[k] == o && NoDup(s) && n !in es
    modifies es`prev, es`next, {n}`prev, {n}`next
    ensures Threaded(s[k := n], es - {o} + {n})
  {
    hide NoDup;
    DupFree(s);
    ThreadAt(s, es, k);
    Rethread(o, n, es);
    ghost var w := s[k := n];
    forall j | 0 <= j < |w| ensures
      w[j] in es - {o} + {n} && w[j].prev == ElemOrNull(w, j - 1) && w[j].next == ElemOrNull(w, j + 1)
    {
      assert s[j] in es;
    }
  }

  lemma OwnKids(inode: Inode, es: set<Extent>, t: Tree, x: Extent)
    requires Wired(inode, t) && Elems(t) == es && x in es
    ensures x.left != x && x.right != x
  {
    hide Elems;
    assert LinksOk(t, x, RootOf(inode));
    KidSlots(t, x, NoSlot);
  }

  /** newe takes the place of orie in the tree and the list. */
  method PutInPlace(inode: Inode, orie: Extent, newe: Extent, ghost es: set<Extent>)
    requires TreeOk(inode, es) && orie in es && newe !in es
    modifies inode`flayout, inode`shape, inode`order, es`left, es`right, es`parent, es`pivot, es`prev, es`next
    modifies {newe}`left, {newe}`right, {newe}`parent, {newe}`pivot, {newe}`depth, {newe}`prev, {newe}`next
    ensures TreeOk(inode, es - {orie} + {newe})
    ensures var k := old(Rank(inode.shape, orie));
      k < |old(inode.order)| && inode.order == old(inode.order)[k := newe]
  {
    hide Elems, Inorder, Distinct, Rank, NoDup, DepthsOk, LinksOk, Substituted, LeftKid, RightKid, Held, Wired;
    hide Threaded;
    ghost var t := inode.shape;
    WiredDistinct(inode, t);
    RankIs(t, orie);
    InorderNoDup(t);
    HeldBy(inode, es, t, orie);
    SubstituteOrder(t, orie, newe);
    OwnKids(inode, es, t, orie);
    label before:
    Substitute(inode, es, t, orie, newe);
    SubstituteDepths@before(es, orie, newe, null, 0, 0);
    RethreadAt(orie, newe, inode.order, Rank(t, orie), es);
    inode.shape := Substituted(t, orie, newe);
    inode.order := inode.order[Rank(t, orie) := newe];
  }

  /** replace_extent: newe takes the place of orie, which is released. */
  method ReplaceExtent(inode: Inode, orie: Extent, newe: Extent, ghost es: set<Extent>, ghost gone: Dobject?)
    requires TreeOk(inode, es) && es <= inode.exts && orie in es && newe !in es
    requires RefsOk(inode) && MapOk(inode, gone) && orie.dobj != gone
    modifies inode`flayout, inode`shape, inode`order, es`left, es`right, es`parent, es`pivot, es`prev, es`next
    modifies {newe}`left, {newe}`right, {newe}`parent, {newe}`pivot, {newe}`depth, {newe}`prev, {newe}`next
    modifies inode`exts, inode`numExts, inode`doMap, inode`dobjs
    modifies {orie.dobj}`refs, {orie.dobj}`numRefs, {orie.dobj}`refSeq, inode.exts`prevRef, inode.exts`nextRef
    ensures TreeOk(inode, es - {orie} + {newe})
    ensures var k := old(Rank(inode.shape, orie));
      k < |old(inode.order)| && inode.order == old(inode.order)[k := newe]
    ensures RefsOk(inode) && MapOk(inode, gone) && inode.exts == old(inode.exts) - {orie}
    ensures exists k | 0 <= k < |old(orie.dobj.refSeq)| ::
      old(orie.dobj.refSeq)[k] == orie && orie.dobj.refSeq == Without(old(orie.dobj.refSeq), k)
    ensures if orie.dobj.refSeq == []
      then inode.dobjs == old(inode.dobjs) - {orie.dobj} && inode.doMap == old(inode.doMap) - {orie.dobj.addr}
      else inode.dobjs == old(inode.dobjs) && inode.doMap == old(inode.doMap)
  {
    hide Elems, Inorder, Distinct, Rank, Without, TreeOk, RefListOk, MapOk, RefsOk;
    PutInPlace(inode, orie, newe, es);
    ReleaseExtent(inode, orie, true, gone);
  }

  /** insert_extent_list: t goes between p and n. */
  method InsertExtentList(p: Extent?, t: Extent, n: Extent?, ghost es: set<Extent>)
    requires t !in es && (p != null ==> p in es) && (n != null ==> n in es)
    modifies es`prev, es`next, {t}`prev, {t}`next
    ensures t.prev == p && t.next == n
    ensures forall y <- es :: y.next == if y == p then t else old(y.next)
    ensures forall y <- es :: y.prev == if y == n then t else old(y.prev)
  {
    t.prev := p;
    t.next := n;
    if p != null { p.next := t; }
    if n != null { n.prev := t; }
  }

  lemma InsertedLength(s: seq<Extent>, k: nat, t: Extent)
    requires k <= |s|
    ensures var w := Inserted(s, k, t);
      && |w| == |s| + 1 && w[k] == t
      && ElemOrNull(w, k - 1) == ElemOrNull(s, k - 1) && ElemOrNull(w, k + 1) == ElemOrNull(s, k)
  {
  }

  lemma ThreadedIn(t: Extent, s: seq<Extent>, k: nat, es: set<Extent>)
    requires k <= |s| && t.prev == ElemOrNull(s, k - 1) && t.next == ElemOrNull(s, k)
    requires forall j {:trigger s[j]} | 0 <= j < |s| ::
      && s[j] in es && s[j].prev == (if j == k then t else ElemOrNull(s, j - 1))
      && s[j].next == (if j + 1 == k then t else ElemOrNull(s, j + 1))
    ensures Threaded(Inserted(s, k, t), es + {t})
  {
    hide Inserted;
    InsertedLength(s, k, t);
    forall i | 0 <= i < |s| + 1 ensures var w := Inserted(s, k, t);
      w[i] in es + {t} && w[i].prev == ElemOrNull(w, i - 1) && w[i].next == ElemOrNull(w, i + 1)
    {
      if i != k { InsertedNeighbours(s, k, t, if i < k then i else i - 1); }
    }
  }

  /** t goes in at position k of the list. */
  method ThreadIn(t: Extent, p: Extent?, n: Extent?, ghost s: seq<Extent>, ghost k: nat, ghost es: set<Extent>)
    requires Threaded(s, es) && NoDup(s) && k <= |s| && t !in es
    requires p == ElemOrNull(s, k - 1) && n == ElemOrNull(s, k)
    modifies es`prev, es`next, {t}`prev, {t}`next
    ensures Threaded(Inserted(s, k, t), es + {t})
  {
    hide NoDup, Inserted;
    DupFree(s);
    InsertedLength(s, k, t);
    assert (k > 0 ==> s[k - 1] in es) && (k < |s| ==> s[k] in es);
    InsertExtentList(p, t, n, es);
    forall j | 0 <= j < |s| ensures
      s[j] in es && s[j].prev == (if j == k then t else ElemOrNull(s, j - 1))
      && s[j].next == (if j + 1 == k then t else ElemOrNull(s, j + 1))
    {
      assert s[j] in es;
    }
    ThreadedIn(t, s, k, es);
  }

  /** An extent created but not yet placed. */
  ghost predicate Loose(x: Extent)
    reads x`left, x`right, x`parent, x`prev, x`depth
  {
    x.left == null && x.right == null && x.parent == null && x.prev == null && x.depth == 1
  }

  lemma FreeSlot(inode: Inode, t: Tree, p: Extent, x: Extent, right: bool)
    requires Wired(inode, t) && p in Elems(t) && x !in Elems(t) && if right then p.right == null else p.left == null
    ensures CanAttach(t, p, x, right)
  {
    assert LinksOk(t, p, RootOf(inode));
  }

  /** The tree part of one insertion: x is hung under p, then the tree is rebalanced. */
  method HangAndRebalance(inode: Inode, p: Extent, x: Extent, right: bool, ghost es: set<Extent>)
    requires Wired(inode, inode.shape) && Elems(inode.shape) == es && DepthsOk(es, null)
    requires inode.order == Inorder(inode.shape)
    requires p in es && x !in es && x.left == null && x.right == null && x.depth == 1
    requires if right then p.right == null else p.left == null
    modifies inode`flayout, inode`shape, inode`order, es`left, es`right, es`parent, es`pivot, es`depth
    modifies {x}`left, {x}`right, {x}`parent, {x}`pivot, {x}`depth
    ensures Wired(inode, inode.shape) && Elems(inode.shape) == es + {x} && DepthsOk(es + {x}, null)
    ensures inode.order == Inorder(inode.shape)
    ensures inode.order == Inserted(old(inode.order), if right then old(Rank(inode.shape, p)) + 1
      else old(Rank(inode.shape, p)), x)
  {
    hide Elems, Inorder, Distinct, Rank, Inserted, Attached, Wired, DepthsOk, OffByOne, CanAttach;
    ghost var t := inode.shape;
    FreeSlot(inode, t, p, x, right);
    AttachOrder(t, p, x, right);
    ghost var w := Inserted(inode.order, if right then Rank(t, p) + 1 else Rank(t, p), x);
    ghost var hl, hr := Depth(p.left), Depth(p.right);
    label before:
    Attach(inode, es, t, p, x, right);
    AttachDepths@before(es, p, x, right);
    inode.shape := Rebalance(inode, es + {x}, Attached(t, p, x, right), p, hl, hr);
    inode.order := w;
  }

  /** The free child slot right after tor in order: its own right slot, or the
      left slot of its successor. */
  method SpotAfter(inode: Inode, tor: Extent, ghost es: set<Extent>) returns (p: Extent, right: bool)
    requires TreeOk(inode, es) && tor in es
    ensures p in es && if right then p.right == null else p.left == null
    ensures var t, s, k := inode.shape, inode.order, Rank(inode.shape, tor);
      && k < |s| && s[k] == tor && NoDup(s) && tor.next == ElemOrNull(s, k + 1)
      && Rank(t, p) + (if right then 1 else 0) == k + 1
  {
    hide Elems, Inorder, Distinct, Rank, DepthsOk, NoDup, Sub, LeftSub, RightSub;
    ghost var t := inode.shape;
    assert LinksOk(t, tor, RootOf(inode));
    RankIs(t, tor);
    InorderNoDup(t);
    p, right := tor, true;
    if tor.right != null {
      Successor(t, tor);
      assert tor.next != null && LinksOk(t, tor.next, RootOf(inode));
      assert tor.next.left == null;
      p, right := tor.next, false;
    }
  }

  method SpotBefore(inode: Inode, tol: Extent, ghost es: set<Extent>) returns (p: Extent, right: bool)
    requires TreeOk(inode, es) && tol in es
    ensures p in es && if right then p.right == null else p.left == null
    ensures var t, s, k := inode.shape, inode.order, Rank(inode.shape, tol);
      && k < |s| && s[k] == tol && NoDup(s) && tol.prev == ElemOrNull(s, k - 1)
      && Rank(t, p) + (if right then 1 else 0) == k
  {
    hide Elems, Inorder, Distinct, Rank, DepthsOk, NoDup, Sub, LeftSub, RightSub;
    ghost var t := inode.shape;
    assert LinksOk(t, tol, RootOf(inode));
    RankIs(t, tol);
    InorderNoDup(t);
    p, right := tol, false;
    if tol.left != null {
      Predecessor(t, tol);
      assert tol.prev != null && LinksOk(t, tol.prev, RootOf(inode));
      assert tol.prev.right == null;
      p, right := tol.prev, true;
    }
  }

  /** x, whose place in order is k, is hung at a free slot there, threaded and balanced in. */
  method InsertAt(inode: Inode, p: Extent, right: bool, prev: Extent?, x: Extent, next: Extent?,
      ghost es: set<Extent>, ghost k: nat)
    requires TreeOk(inode, es) && p in es && x !in es && Loose(x) && (if right then p.right == null else p.left == null)
    requires Rank(inode.shape, p) + (if right then 1 else 0) == k <= |inode.order| && NoDup(inode.order)
    requires prev == ElemOrNull(inode.order, k - 1) && next == ElemOrNull(inode.order, k)
    modifies inode`flayout, inode`shape, inode`order, es`left, es`right, es`parent, es`pivot, es`depth, es`prev, es`next
    modifies {x}`left, {x}`right, {x}`parent, {x}`pivot, {x}`depth, {x}`prev, {x}`next
    ensures TreeOk(inode, es + {x}) && inode.order == Inserted(old(inode.order), k, x)
  {
    hide Elems, Inorder, Distinct, Rank, Inserted, DepthsOk, NoDup, Wired;
    ghost var s := inode.order;
    ThreadIn(x, prev, next, s, k, es);
    HangAndRebalance(inode, p, x, right, es);
  }

  /** One round of replace's insertion loop with a left anchor: x goes right after tor. */
  method InsertAfter(inode: Inode, tor: Extent, x: Extent, ghost es: set<Extent>)
    requires TreeOk(inode, es) && tor in es && x !in es && Loose(x)
    modifies inode`flayout, inode`shape, inode`order, es`left, es`right, es`parent, es`pivot, es`depth, es`prev, es`next
    modifies {x}`left, {x}`right, {x}`parent, {x}`pivot, {x}`depth, {x}`prev, {x}`next
    ensures TreeOk(inode, es + {x})
    ensures var s, k := old(inode.order), old(Rank(inode.shape, tor));
      k < |s| && s[k] == tor && inode.order == Inserted(s, k + 1, x)
  {
    hide TreeOk, Inorder, Rank, Inserted, NoDup;
    var p, right := SpotAfter(inode, tor, es);
    InsertAt(inode, p, right, tor, x, tor.next, es, Rank(inode.shape, tor) + 1);
  }

  /** The same with a right anchor: x goes right before tol. */
  method InsertBefore(inode: Inode, tol: Extent, x: Extent, ghost es: set<Extent>)
    requires TreeOk(inode, es) && tol in es && x !in es && Loose(x)
    modifies inode`flayout, inode`shape, inode`order, es`left, es`right, es`parent, es`pivot, es`depth, es`prev, es`next
    modifies {x}`left, {x}`right, {x}`parent, {x}`pivot, {x}`depth, {x}`prev, {x}`next
    ensures TreeOk(inode, es + {x})
    ensures var s, k := old(inode.order), old(Rank(inode.shape, tol));
      k < |s| && s[k] == tol && inode.order == Inserted(s, k, x)
  {
    hide TreeOk, Inorder, Rank, Inserted, NoDup;
    var p, right := SpotBefore(inode, tol, es);
    InsertAt(inode, p, right, tol.prev, x, tol, es, Rank(inode.shape, tol));
  }
}
