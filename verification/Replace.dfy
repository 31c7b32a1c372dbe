/** incont.c's replace: a range of the layout is overwritten by a list of new extents. */
module Replacing {
  import opened Sequences
  import opened Extents
  import opened Trees
  import opened Edits
  import opened Rebalancing
  import opened RefLists
  import opened Layouts
  import opened Checks
  import opened ByteMap
  import opened Rewrites

  ghost function PieceOf(e: Extent): Piece
    reads e`offF, e`offDo, e`length
  {
    Piece(e.dobj.addr, e.offF, e.offDo, e.length)
  }

  /** The contents of a list of extents. */
  ghost function Pieces(s: seq<Extent>): (v: seq<Piece>)
    reads s`offF, s`offDo, s`length
    ensures |v| == |s| && forall i | 0 <= i < |s| :: v[i] == PieceOf(s[i])
  {
    if s == [] then [] else [PieceOf(s[0])] + Pieces(s[1..])
  }

  /** The ranges of x's subtrees in order. */
  lemma KidFacts(inode: Inode, es: set<Extent>, x: Extent)
    requires TreeOk(inode, es) && x in es
    ensures var t, s := inode.shape, inode.order;
      var r, lo, hi := Rank(t, x), |Before(t, x)|, |s| - |After(t, x)|;
      && (x.left == null ==> lo == r)
      && (x.left != null ==> x.left in es && |Before(t, x.left)| == lo && |s| - |After(t, x.left)| == r)
      && (x.right == null ==> r + 1 == hi)
      && (x.right != null ==> x.right in es && |Before(t, x.right)| == r + 1 && |s| - |After(t, x.right)| == hi)
  {
    hide Elems, Distinct, DepthsOk, NoDup, Sub, LeftSub, RightSub, Before, After;
    var t := inode.shape;
    KidRange(t, x);
    KidSlots(t, x, NoSlot);
    assert LinksOk(t, x, RootOf(inode));
  }

  lemma RankFacts(inode: Inode, es: set<Extent>, x: Extent)
    requires TreeOk(inode, es) && x in es
    ensures var t, s := inode.shape, inode.order;
      var r := Rank(t, x);
      && |Before(t, x)| <= r < |s| - |After(t, x)| <= |s| && s[r] == x
      && x.prev == ElemOrNull(s, r - 1) && x.next == ElemOrNull(s, r + 1)
      && (forall i | 0 <= i < |s| :: s[i] in es)
  {
    hide Elems, Distinct, DepthsOk, NoDup, Sub, LeftSub, RightSub, Before, After;
    RankIs(inode.shape, x);
    KidRange(inode.shape, x);
  }

  /** The neighbourhood of x in the tree and in order. */
  lemma NodeFacts(inode: Inode, es: set<Extent>, x: Extent)
    requires TreeOk(inode, es) && x in es
    ensures var t, s := inode.shape, inode.order;
      var r, lo, hi := Rank(t, x), |Before(t, x)|, |s| - |After(t, x)|;
      && lo <= r < hi <= |s| && s[r] == x && x.prev == ElemOrNull(s, r - 1) && x.next == ElemOrNull(s, r + 1)
      && (x.left == null ==> lo == r)
      && (x.left != null ==> x.left in es && |Before(t, x.left)| == lo && |s| - |After(t, x.left)| == r)
      && (x.right == null ==> r + 1 == hi)
      && (x.right != null ==> x.right in es && |Before(t, x.right)| == r + 1 && |s| - |After(t, x.right)| == hi)
      && (forall i | 0 <= i < |s| :: s[i] in es)
  {
    hide TreeOk, Rank, Before, After, ElemOrNull;
    RankFacts(inode, es, x);
    KidFacts(inode, es, x);
  }

  ghost predicate Located(inode: Inode, start: nat, dh: Extent?, tor: Extent?, straddles: bool, k: nat, es: set<Extent>)
    reads inode`order, inode.order`offF, inode.order`offDo, inode.order`length,
      (if dh == null then {} else {dh})`offF
  {
    var s := inode.order;
    && FirstAfter(Pieces(s), start, k) && dh == ElemOrNull(s, k) && (dh != null ==> dh in es)
    && (straddles <==> dh != null && dh.offF < start)
    && (!straddles ==> tor == ElemOrNull(s, k - 1))
  }

  /** What the search knows at cur: the answer lies in the range of cur's subtree or right after it. */
  ghost predicate Narrowed(inode: Inode, start: nat, cur: Extent)
    reads inode`shape, inode`order, inode.order`offF, inode.order`offDo, inode.order`length
  {
    var t, v := inode.shape, Pieces(inode.order);
    |After(t, cur)| <= |v| && EndBy(v, |Before(t, cur)|, start) && StartAfter(v, |v| - |After(t, cur)|, start)
  }

  /** One round of the search at cur: done, or on to a child. */
  method SearchRound(inode: Inode, start: nat, cur: Extent, ghost es: set<Extent>)
    returns (found: bool, dh: Extent?, tor: Extent?, straddles: bool, ghost k: nat)
    requires TreeOk(inode, es) && Ordered(Pieces(inode.order)) && cur in es && Narrowed(inode, start, cur)
    ensures found ==> Located(inode, start, dh, tor, straddles, k, es)
    ensures !found ==> dh != null && dh in es && Narrowed(inode, start, dh)
    ensures !found ==>
      |Before(inode.shape, dh)| + |After(inode.shape, dh)| > |Before(inode.shape, cur)| + |After(inode.shape, cur)|
  {
    hide Elems, Inorder, Rank, Before, After, Pieces, TreeOk, Sorted, Positive, EndBy, StartAfter, FirstAfter;
    ghost var t, s, v := inode.shape, inode.order, Pieces(inode.order);
    NodeFacts(inode, es, cur);
    ghost var r := Rank(t, cur);
    assert v[r] == PieceOf(cur);
    assert r + 1 < |s| ==> v[r + 1] == PieceOf(s[r + 1]);
    SearchStep(v, |Before(t, cur)|, r, |s| - |After(t, cur)|, start);
    found, dh, tor, straddles, k := true, cur, null, false, r;
    var cs := cur.offF;
    var ce := cs + cur.length;
    if cs == start {
      tor := cur.prev;
    } else if cs < start && start < ce {
      straddles := true;
    } else if start < cs && cur.left != null {
      found, dh := false, cur.left;
    } else if start < cs && cur.left == null {
      tor := cur.prev;
    } else if ce <= start && cur.right != null {
      found, dh := false, cur.right;
    } else {
      tor, dh, k := cur, cur.next, r + 1;
    }
  }

  lemma RootNarrowed(inode: Inode, start: nat, es: set<Extent>)
    requires TreeOk(inode, es) && inode.flayout != null
    ensures inode.flayout in es && Narrowed(inode, start, inode.flayout)
  {
    var t := inode.shape;
    assert t.Node? && Before(t, t.e) == [] && After(t, t.e) == [];
  }

  /** The search common to replace and find_start_extent: down the tree to the
      first extent that ends after `start`. */
  method Locate(inode: Inode, start: nat, ghost es: set<Extent>)
    returns (dh: Extent?, tor: Extent?, straddles: bool, ghost k: nat)
    requires TreeOk(inode, es) && Ordered(Pieces(inode.order)) && inode.flayout != null
    ensures Located(inode, start, dh, tor, straddles, k, es)
  {
    hide Elems, Inorder, Rank, Before, After, Pieces, TreeOk, Ordered, Located, StartAfter;
    RootNarrowed(inode, start, es);
    var cur := inode.flayout;
    while true
      invariant cur != null && cur in es && Narrowed(inode, start, cur)
      decreases 2 * |inode.order| - |Before(inode.shape, cur)| - |After(inode.shape, cur)|
    {
      var found;
      found, dh, tor, straddles, k := SearchRound(inode, start, cur, es);
      if found { break; }
      cur := dh;
    }
  }

  lemma PiecesCons(e: Extent, s: seq<Extent>)
    ensures Pieces([e] + s) == [PieceOf(e)] + Pieces(s)
  {
    assert ([e] + s)[1..] == s;
  }

  lemma PiecesConcat(s: seq<Extent>, r: seq<Extent>)
    ensures Pieces(s + r) == Pieces(s) + Pieces(r)
  {
    hide Pieces;
  }

  lemma PiecesSlice(s: seq<Extent>, k: nat)
    requires k <= |s|
    ensures Pieces(s[..k]) == Pieces(s)[..k] && Pieces(s[k..]) == Pieces(s)[k..]
  {
    hide Pieces;
  }

  // ---- the state between the steps of replace

  /** A is a chain through `next` of extents that are created but not yet placed. */
  ghost predicate Pending(A: seq<Extent>, es: set<Extent>, all: set<Extent>)
    reads all`next, all`left, all`right, all`parent, all`prev, all`depth
  {
    && NoDup(A)
    && forall i {:trigger A[i]} | 0 <= i < |A| ::
        A[i] in all && A[i] !in es && A[i].next == ElemOrNull(A, i + 1) && Loose(A[i])
  }

  /** es are placed and A is pending; together they are the live extents, and
      every object but `bare` has one. */
  ghost predicate MidBut(inode: Inode, es: set<Extent>, A: seq<Extent>, bare: Dobject?)
    reads inode`shape, inode`order, inode`flayout, inode`exts, inode`dobjs, inode`numExts, inode`doMap, inode.dobjs
    reads es`left, es`right, es`parent, es`pivot, es`depth, es`prev, es`next
    reads inode.exts`left, inode.exts`right, inode.exts`parent, inode.exts`depth
    reads inode.exts`prev, inode.exts`next, inode.exts`prevRef, inode.exts`nextRef
  {
    && TreeOk(inode, es)
    && RefsOk(inode) && MapOk(inode, null) && Occupied(inode, bare)
    && inode.exts == es + SetOf(A) && Pending(A, es, inode.exts)
  }

  ghost predicate Mid(inode: Inode, es: set<Extent>, A: seq<Extent>)
    reads inode`shape, inode`order, inode`flayout, inode`exts, inode`dobjs, inode`numExts, inode`doMap, inode.dobjs
    reads es`left, es`right, es`parent, es`pivot, es`depth, es`prev, es`next
    reads inode.exts`left, inode.exts`right, inode.exts`parent, inode.exts`depth
    reads inode.exts`prev, inode.exts`next, inode.exts`prevRef, inode.exts`nextRef
  {
    MidBut(inode, es, A, null)
  }

  lemma SetOfTail<T>(A: seq<T>)
    requires A != [] && NoDup(A)
    ensures SetOf(A[1..]) == SetOf(A) - {A[0]} && NoDup(A[1..])
  {
    forall x | x in SetOf(A) - {A[0]} ensures x in SetOf(A[1..]) {
      var i :| 0 <= i < |A| && A[i] == x;
      assert A[1..][i - 1] == x;
    }
    forall x | x in SetOf(A[1..]) ensures x in SetOf(A) - {A[0]} {
      var i :| 0 <= i < |A[1..]| && A[1..][i] == x;
      assert A[i + 1] == x;
    }
  }

  /** Releasing one reference leaves every remaining object occupied. */
  twostate lemma StillOccupied(inode: Inode, new dobj: Dobject)
    requires old(Occupied(inode, null)) && dobj in old(inode.dobjs)
    requires if dobj.refSeq == [] then inode.dobjs == old(inode.dobjs) - {dobj} else inode.dobjs == old(inode.dobjs)
    requires forall d <- old(inode.dobjs) :: d != dobj ==> d.refSeq == old(d.refSeq)
    ensures Occupied(inode, null)
  {
  }

  twostate predicate LooseKept(x: Extent)
    reads x`left, x`right, x`parent, x`prev, x`depth
  {
    && x.left == old(x.left) && x.right == old(x.right) && x.depth == old(x.depth)
    && x.parent == old(x.parent) && x.prev == old(x.prev)
  }

  lemma PendingEach(A: seq<Extent>, es: set<Extent>, all: set<Extent>)
    requires Pending(A, es, all)
    ensures NoDup(A)
    ensures forall i {:trigger A[i]} | 0 <= i < |A| ::
      A[i] in all && A[i] !in es && A[i].next == ElemOrNull(A, i + 1) && Loose(A[i])
  {
  }

  twostate lemma StillPending(new A: seq<Extent>, new es: set<Extent>, all: set<Extent>, new es': set<Extent>,
      new all': set<Extent>)
    requires A != [] && NoDup(A) && es' <= es + {A[0]}
    requires forall i {:trigger A[i]} | 0 <= i < |A| ::
      A[i] in all && A[i] !in es && old(A[i].next) == ElemOrNull(A, i + 1) && old(Loose(A[i]))
    requires SetOf(A) - {A[0]} <= all'
    requires forall x <- all :: x !in es && x != A[0] ==>
      x.next == old(x.next) && LooseKept(x)
    ensures Pending(A[1..], es', all')
  {
    SetOfTail(A);
    forall i | 0 <= i < |A| - 1 ensures A[1..][i] in all' && A[1..][i] !in es'
        && A[1..][i].next == ElemOrNull(A[1..], i + 1) && Loose(A[1..][i]) {
      assert A[i + 1] in SetOf(A) && A[i + 1] in all;
    }
  }

  /** The n-th placed extent is live, and n is its rank. */
  lemma PlacedAt(inode: Inode, es: set<Extent>, A: seq<Extent>, n: nat)
    requires Mid(inode, es, A) && n < |inode.order|
    ensures inode.order[n] in es && es <= inode.exts && Rank(inode.shape, inode.order[n]) == n
    ensures inode.order[n].dobj in inode.dobjs
  {
    RankUnique(inode.shape, inode.order[n], n);
  }

  lemma PendingAt(inode: Inode, es: set<Extent>, A: seq<Extent>)
    requires Mid(inode, es, A)
    ensures NoDup(A) && inode.exts == es + SetOf(A) && es !! SetOf(A)
    ensures A != [] ==>
      A[0] in SetOf(A) && A[0] in inode.exts && A[0] !in es && Loose(A[0]) && A[0].next == ElemOrNull(A, 1)
  {
    forall x | x in SetOf(A) ensures x !in es {
      var i :| 0 <= i < |A| && A[i] == x;
      assert A[i] !in es;
    }
  }

  lemma MoveOver<T>(es: set<T>, P: set<T>, d: T, a: T)
    requires d in es && a in P && es !! P
    ensures es + P - {d} == es - {d} + {a} + (P - {a})
  {
  }

  /** The first pending extent replaces dh, the n-th placed one. */
  method SubstituteStep(inode: Inode, dh: Extent, alte: Extent, ghost es: set<Extent>, ghost A: seq<Extent>,
      ghost n: nat)
    requires Mid(inode, es, A) && A != [] && alte == A[0] && n < |inode.order| && dh == inode.order[n]
    modifies inode`flayout, inode`shape, inode`order, inode`exts, inode`numExts, inode`doMap, inode`dobjs
    modifies inode.dobjs`refs, inode.dobjs`numRefs, inode.dobjs`refSeq
    modifies inode.exts`left, inode.exts`right, inode.exts`parent, inode.exts`pivot, inode.exts`depth
    modifies inode.exts`prev, inode.exts`next, inode.exts`prevRef, inode.exts`nextRef
    ensures inode.dobjs <= old(inode.dobjs) && inode.exts <= old(inode.exts)
    ensures Mid(inode, es - {dh} + {alte}, A[1..]) && inode.order == old(inode.order)[n := alte]
  {
    hide TreeOk, RefsOk, MapOk, Occupied, Pending, Without, Rank, SetOf;
    PlacedAt(inode, es, A, n);
    PendingAt(inode, es, A);
    PendingEach(A, es, inode.exts);
    label before:
    ReplaceExtent(inode, dh, alte, es, null);
    StillOccupied@before(inode, dh.dobj);
    SetOfTail(A);
    MoveOver(es, SetOf(A), dh, alte);
    StillPending@before(A, es, old(inode.exts), es - {dh} + {alte}, inode.exts);
  }

  lemma LeaveOne<T>(es: set<T>, P: set<T>, d: T)
    requires d in es && es !! P
    ensures es + P - {d} == es - {d} + P
  {
  }

  twostate lemma KeepPending(new A: seq<Extent>, new es: set<Extent>, all: set<Extent>, new es': set<Extent>,
      new all': set<Extent>)
    requires NoDup(A) && es' !! SetOf(A) && SetOf(A) <= all'
    requires forall i {:trigger A[i]} | 0 <= i < |A| ::
      A[i] in all && A[i] !in es && old(A[i].next) == ElemOrNull(A, i + 1) && old(Loose(A[i]))
    requires forall x <- all :: x !in es ==>
      x.next == old(x.next) && LooseKept(x)
    ensures Pending(A, es', all')
  {
    forall i | 0 <= i < |A| ensures A[i] in all' && A[i] !in es'
        && A[i].next == ElemOrNull(A, i + 1) && Loose(A[i]) {
      assert A[i] in SetOf(A) && A[i] in all;
    }
  }

  /** The n-th placed extent is removed. */
  method RemoveStep(inode: Inode, dh: Extent, ghost es: set<Extent>, ghost A: seq<Extent>, ghost n: nat)
    requires Mid(inode, es, A) && n < |inode.order| && dh == inode.order[n]
    modifies inode`flayout, inode`shape, inode`order, inode`exts, inode`numExts, inode`doMap, inode`dobjs
    modifies inode.dobjs`refs, inode.dobjs`numRefs, inode.dobjs`refSeq
    modifies inode.exts`left, inode.exts`right, inode.exts`parent, inode.exts`pivot, inode.exts`depth
    modifies inode.exts`prev, inode.exts`next, inode.exts`prevRef, inode.exts`nextRef
    ensures inode.dobjs <= old(inode.dobjs) && inode.exts <= old(inode.exts)
    ensures Mid(inode, es - {dh}, A) && inode.order == Without(old(inode.order), n)
  {
    hide TreeOk, RefsOk, MapOk, Occupied, Pending, Without, Rank, SetOf;
    PlacedAt(inode, es, A, n);
    PendingAt(inode, es, A);
    PendingEach(A, es, inode.exts);
    label before:
    RemoveExtent(inode, dh, true, es, null);
    StillOccupied@before(inode, dh.dobj);
    LeaveOne(es, SetOf(A), dh);
    KeepPending@before(A, es, old(inode.exts), es - {dh}, inode.exts);
  }

  lemma PlacedRank(inode: Inode, es: set<Extent>, n: nat)
    requires TreeOk(inode, es) && n < |inode.order|
    ensures inode.order[n] in es && Rank(inode.shape, inode.order[n]) == n
  {
    RankUnique(inode.shape, inode.order[n], n);
  }

  /** x is hung and threaded in as the n-th of the order, next to an anchor. */
  method PlaceBeside(inode: Inode, tor: Extent?, tol: Extent?, x: Extent, ghost es: set<Extent>, ghost n: nat)
    requires TreeOk(inode, es) && x !in es && Loose(x) && n <= |inode.order|
    requires if tor != null then n > 0 && tor == inode.order[n - 1] else n < |inode.order| && tol == inode.order[n]
    modifies inode`flayout, inode`shape, inode`order, es`left, es`right, es`parent, es`pivot, es`depth, es`prev, es`next
    modifies {x}`left, {x}`right, {x}`parent, {x}`pivot, {x}`depth, {x}`prev, {x}`next
    ensures TreeOk(inode, es + {x}) && inode.order == Inserted(old(inode.order), n, x)
  {
    hide TreeOk, Inserted, Rank;
    if tor != null {
      PlacedRank(inode, es, n - 1);
      InsertAfter(inode, tor, x, es);
    } else {
      PlacedRank(inode, es, n);
      InsertBefore(inode, tol, x, es);
    }
  }

  lemma AddOne<T>(es: set<T>, P: set<T>, a: T)
    requires a in P
    ensures es + P == es + {a} + (P - {a})
  {
  }

  /** The first pending extent is placed after tor or, when there is none, before tol. */
  method InsertStep(inode: Inode, tor: Extent?, tol: Extent?, alte: Extent,
      ghost es: set<Extent>, ghost A: seq<Extent>, ghost n: nat)
    requires Mid(inode, es, A) && A != [] && alte == A[0] && n <= |inode.order|
    requires if tor != null then n > 0 && tor == inode.order[n - 1] else n < |inode.order| && tol == inode.order[n]
    modifies inode`flayout, inode`shape, inode`order
    modifies inode.exts`left, inode.exts`right, inode.exts`parent, inode.exts`pivot, inode.exts`depth
    modifies inode.exts`prev, inode.exts`next
    ensures Mid(inode, es + {alte}, A[1..]) && inode.order == Inserted(old(inode.order), n, alte)
  {
    hide TreeOk, RefsOk, MapOk, Occupied, Pending, Inserted, Rank, SetOf;
    PendingAt(inode, es, A);
    PendingEach(A, es, inode.exts);
    label before:
    PlaceBeside(inode, tor, tol, alte, es, n);
    SetOfTail(A);
    AddOne(es, SetOf(A), alte);
    StillPending@before(A, es, old(inode.exts), es + {alte}, inode.exts);
  }

  lemma DropOne<T>(es: set<T>, P: set<T>, a: T)
    requires a in P && es !! P
    ensures es + P - {a} == es + (P - {a})
  {
  }

  lemma ObjectOf(inode: Inode, es: set<Extent>, A: seq<Extent>, x: Extent)
    requires Mid(inode, es, A) && x in inode.exts
    ensures x.dobj in inode.dobjs && x.dobj.inode == inode
  {
  }

  /** The first pending extent is released unplaced. */
  method DropPending(inode: Inode, alte: Extent, ghost es: set<Extent>, ghost A: seq<Extent>)
    requires Mid(inode, es, A) && A != [] && alte == A[0]
    modifies inode`exts, inode`numExts, inode`doMap, inode`dobjs
    modifies inode.dobjs`refs, inode.dobjs`numRefs, inode.dobjs`refSeq, inode.exts`prevRef, inode.exts`nextRef
    ensures inode.dobjs <= old(inode.dobjs) && inode.exts <= old(inode.exts)
    ensures Mid(inode, es, A[1..])
  {
    hide TreeOk, RefsOk, MapOk, Occupied, Pending, Without, Rank, SetOf;
    PendingAt(inode, es, A);
    ObjectOf(inode, es, A, alte);
    PendingEach(A, es, inode.exts);
    label before:
    ReleaseExtent(inode, alte, true, null);
    StillOccupied@before(inode, alte.dobj);
    SetOfTail(A);
    DropOne(es, SetOf(A), alte);
    StillPending@before(A, es, old(inode.exts), es, inode.exts);
  }

  lemma PushedPending(tmp: Extent, A: seq<Extent>, es: set<Extent>, all: set<Extent>)
    requires Pending(A, es, all) && tmp !in all && es <= all && Loose(tmp) && tmp.next == ElemOrNull(A, 0)
    ensures Pending([tmp] + A, es, all + {tmp}) && SetOf([tmp] + A) == SetOf(A) + {tmp}
  {
    var w := [tmp] + A;
    forall i | 0 <= i < |w|
      ensures w[i] in all + {tmp} && w[i] !in es && w[i].next == ElemOrNull(w, i + 1) && Loose(w[i])
    {
      assert i > 0 ==> w[i] == A[i - 1];
    }
  }

  lemma PendingTail(A: seq<Extent>, es: set<Extent>, all: set<Extent>)
    requires Pending(A, es, all)
    ensures A != [] ==> A[|A| - 1] in all && A[|A| - 1] !in es
  {
  }

  twostate lemma AppendedPending(new tmp: Extent, new A: seq<Extent>, new es: set<Extent>, all: set<Extent>)
    requires NoDup(A) && tmp !in all && es <= all && Loose(tmp) && tmp.next == null
    requires forall i {:trigger A[i]} | 0 <= i < |A| ::
      A[i] in all && A[i] !in es && old(A[i].next) == ElemOrNull(A, i + 1) && old(Loose(A[i]))
    requires forall x <- all :: x.next == if x == ElemOrNull(A, |A| - 1) then tmp else old(x.next)
    requires forall x <- all :: LooseKept(x)
    ensures Pending(A + [tmp], es, all + {tmp}) && SetOf(A + [tmp]) == SetOf(A) + {tmp}
  {
    var w := A + [tmp];
    forall i | 0 <= i < |w|
      ensures w[i] in all + {tmp} && w[i] !in es && w[i].next == ElemOrNull(w, i + 1) && Loose(w[i])
    {
      assert i < |A| ==> w[i] == A[i];
    }
  }

  /** A new extent of dobj goes to the front of the pending chain. */
  method AddPending(inode: Inode, dobj: Dobject, offF: nat, offDo: nat, length: nat, alts: Extent?,
      ghost es: set<Extent>, ghost A: seq<Extent>)
    returns (tmp: Extent)
    requires MidBut(inode, es, A, dobj) && alts == ElemOrNull(A, 0) && dobj in inode.dobjs && dobj.inode == inode
    modifies inode`exts, inode`numExts
    modifies {dobj}`refs, {dobj}`numRefs, {dobj}`refSeq, inode.exts`prevRef
    ensures fresh(tmp) && tmp.dobj == dobj && tmp.offF == offF && tmp.offDo == offDo && tmp.length == length
    ensures inode.exts == old(inode.exts) + {tmp} && Mid(inode, es, [tmp] + A)
  {
    hide TreeOk, RefsOk, MapOk, Pending, SetOf;
    tmp := CreateExtent(dobj, offF, offDo, length);
    tmp.next := alts;
    PushedPending(tmp, A, es, old(inode.exts));
  }

  /** A new extent of dobj goes to the end of the pending chain. */
  method AppendPending(inode: Inode, dobj: Dobject, offF: nat, offDo: nat, length: nat, tail: Extent?,
      ghost es: set<Extent>, ghost A: seq<Extent>)
    returns (tmp: Extent)
    requires MidBut(inode, es, A, dobj) && tail == ElemOrNull(A, |A| - 1) && dobj in inode.dobjs && dobj.inode == inode
    modifies inode`exts, inode`numExts
    modifies {dobj}`refs, {dobj}`numRefs, {dobj}`refSeq, inode.exts`prevRef, OrNone(tail)`next
    ensures fresh(tmp) && tmp.dobj == dobj && tmp.offF == offF && tmp.offDo == offDo && tmp.length == length
    ensures inode.exts == old(inode.exts) + {tmp} && Mid(inode, es, A + [tmp])
  {
    hide TreeOk, RefsOk, MapOk, Pending, SetOf;
    tmp := CreateExtent(dobj, offF, offDo, length);
    PendingTail(A, es, old(inode.exts));
    PendingEach(A, es, old(inode.exts));
    label before:
    if tail != null { tail.next := tmp; }
    AppendedPending@before(tmp, A, es, old(inode.exts));
  }

  // ---- the head of the range

  /** Placed extents and pending ones do not overlap, and neither list repeats. */
  lemma NoAlias(inode: Inode, es: set<Extent>, A: seq<Extent>)
    requires Mid(inode, es, A)
    ensures NoDup(inode.order) && NoDup(A)
    ensures forall i, j | 0 <= i < |inode.order| && 0 <= j < |A| :: inode.order[i] != A[j]
    ensures forall i | 0 <= i < |inode.order| :: inode.order[i] in es && inode.order[i] in inode.exts
    ensures forall j | 0 <= j < |A| :: A[j] in inode.exts
  {
    InorderNoDup(inode.shape);
  }

  /** dh ends inside the range: it keeps the part before `start`. */
  method TrimHead(inode: Inode, dh: Extent, start: nat, end: nat, ghost es: set<Extent>, ghost A: seq<Extent>,
      ghost k: nat, ghost z: Option<Piece>)
    requires Mid(inode, es, A) && k < |inode.order| && dh == inode.order[k]
    requires Ordered(Pieces(inode.order)) && Listed(Pieces(A), start, end, z) && start <= end
    requires FirstAfter(Pieces(inode.order), start, k) && dh.offF < start
    modifies {dh}`length
    ensures inode.order == old(inode.order) && Mid(inode, es, A)
    ensures IsHead(Pieces(inode.order[..k + 1]) + Pieces(A), old(Pieces(inode.order)), old(Pieces(A)), start, end, z)
    ensures Pieces(inode.order[..k + 1]) == old(Pieces(inode.order))[..k] + [Cut(old(Pieces(inode.order))[k], start)]
    ensures Pieces(inode.order[k + 1..]) == old(Pieces(inode.order))[k + 1..]
    ensures dh.offF + dh.length == start && Pieces(A) == old(Pieces(A))
  {
    hide Mid, MidBut, Pieces, IsHead, Listed, FirstAfter, Ordered;
    NoAlias(inode, es, A);
    ghost var s, v := inode.order, Pieces(inode.order);
    HeadStraddling(v, Pieces(A), k, start, end, z);
    dh.length := start - dh.offF;
    assert PieceOf(dh) == Cut(v[k], start);
    assert Pieces(s[..k + 1]) == v[..k] + [Cut(v[k], start)];
    assert Pieces(A) == old(Pieces(A));
    assert Pieces(s[k + 1..]) == v[k + 1..];
  }

  /** A list that starts before its end does not start with the empty piece. */
  lemma MoreThanEmpty(w: seq<Piece>, start: int, end: int, z: Option<Piece>)
    requires Listed(w, start, end, z) && w != [] && (z.Some? ==> w[0].offF < end)
    ensures z.Some? ==> |w| > 1
  {
  }

  lemma MergeFilled(u: seq<Piece>, p: Piece, q: Piece, r: seq<Piece>, z: Option<Piece>)
    requires Filled(u + [p, q] + r, z)
    ensures Filled(u + [Merged(p, q)] + r, if r == [] then None else z)
  {
    var x, y := u + [p, q] + r, u + [Merged(p, q)] + r;
    assert |y| == |x| - 1 && x[|u|] == p && y[|u|] == Merged(p, q);
    forall i | 0 <= i < |y| && (i < |y| - 1 || r == [] || z.None?) ensures y[i].length > 0 {
      if i != |u| {
        var k := if i < |u| then i else i + 1;
        assert y[i] == x[k];
      }
    }
    if r != [] && z.Some? { assert y[|y| - 1] == x[|x| - 1]; }
  }

  /** Merging two neighbours of a head: the empty last piece stays, or is swallowed if it is the second. */
  lemma MergeHead(u: seq<Piece>, p: Piece, q: Piece, r: seq<Piece>, v: seq<Piece>, w: seq<Piece>, start: int, end: int,
      z: Option<Piece>)
    requires IsHead(u + [p, q] + r, v, w, start, end, z) && Mergeable(p, q)
    ensures IsHead(u + [Merged(p, q)] + r, v, w, start, end, if r == [] then None else z)
  {
    hide Filled, Look;
    var x, y := u + [p, q] + r, u + [Merged(p, q)] + r;
    MergeKeeps(u, p, q, r);
    MergeFilled(u, p, q, r, z);
    forall i | 0 <= i < |y| ensures End(y[i]) <= end {
      assert End(y[i]) == End(x[if i < |u| then i else i + 1]);
    }
  }

  lemma MergeHeadKeeps(u: seq<Piece>, c: Piece, w: seq<Piece>, v: seq<Piece>, start: int, end: int, z: Option<Piece>)
    requires IsHead(u + [c] + w, v, w, start, end, z) && w != [] && Mergeable(c, w[0]) && (z.Some? ==> |w| > 1)
    ensures IsHead(u + ([Merged(c, w[0])] + w[1..]), v, w, start, end, z)
  {
    hide Filled, Look;
    var x, y := u + [c] + w, u + ([Merged(c, w[0])] + w[1..]);
    assert x == u + [c, w[0]] + w[1..];
    assert y == u + [Merged(c, w[0])] + w[1..];
    MergeHead(u, c, w[0], w[1..], v, w, start, end, z);
  }

  lemma JoinFirst(c: Piece, w: seq<Piece>)
    ensures w != [] && Mergeable(c, w[0]) ==> JoinAt([c] + w, 1) == [Merged(c, w[0])] + w[1..]
    ensures w == [] || !Mergeable(c, w[0]) ==> JoinAt([c] + w, 1) == [c] + w
  {
    hide Mergeable, Merged;
    var X := [c] + w;
    assert |X| == 1 + |w| && X[0] == c && (w != [] ==> X[1] == w[0]);
    if w != [] && Mergeable(c, w[0]) {
      assert X[..0] == [] && X[2..] == w[1..];
    }
  }

  /** dh's head runs into the first new extent, which takes it over. */
  method JoinHead(inode: Inode, dh: Extent, alt: Extent, start: nat, end: nat,
      ghost es: set<Extent>, ghost A: seq<Extent>, ghost k: nat, ghost z: Option<Piece>)
    requires Mid(inode, es, A) && A != [] && alt == A[0] && k < |inode.order| && dh == inode.order[k]
    requires Ordered(Pieces(inode.order)) && Listed(Pieces(A), start, end, z) && start <= end
    requires FirstAfter(Pieces(inode.order), start, k) && dh.offF < start
    requires dh.dobj == alt.dobj && dh.offDo + (start - dh.offF) == alt.offDo && start == alt.offF
    requires z.Some? ==> start < end
    modifies {alt}`offF, {alt}`offDo, {alt}`length
    ensures inode.order == old(inode.order) && Mid(inode, es, A)
    ensures IsHead(Pieces(inode.order[..k]) + Pieces(A), old(Pieces(inode.order)), old(Pieces(A)), start, end, z)
    ensures Pieces(inode.order) == old(Pieces(inode.order))
    ensures Pieces(A) == JoinAt([Cut(old(Pieces(inode.order))[k], start)] + old(Pieces(A)), 1)
  {
    hide Mid, MidBut, Pieces, IsHead, Listed, FirstAfter, Ordered;
    NoAlias(inode, es, A);
    ghost var s, v, w := inode.order, Pieces(inode.order), Pieces(A);
    HeadStraddling(v, w, k, start, end, z);
    ghost var c := Cut(v[k], start);
    MoreThanEmpty(w, start, end, z);
    MergeHeadKeeps(v[..k], c, w, v, start, end, z);
    var headLen := start - dh.offF;
    alt.offF := dh.offF;
    alt.offDo := dh.offDo;
    alt.length := alt.length + headLen;
    assert Pieces(A) == [Merged(c, w[0])] + w[1..];
    JoinFirst(c, w);
    assert Pieces(s) == v;
    assert Pieces(s[..k]) == v[..k];
  }

  lemma SameSplit<T>(u: seq<T>, c: T, w: seq<T>)
    ensures u + ([c] + w) == u + [c] + w
  {
  }

  lemma ObjectOfPlaced(inode: Inode, es: set<Extent>, A: seq<Extent>, x: Extent)
    requires Mid(inode, es, A) && x in inode.order
    ensures x in inode.exts && x.dobj in inode.dobjs && x.dobj.inode == inode
    ensures MidBut(inode, es, A, x.dobj)
  {
    ObjectOf(inode, es, A, x);
  }

  /** dh's head becomes a new extent in front of the new ones. */
  method NewHead(inode: Inode, dh: Extent, alts: Extent?, start: nat, end: nat,
      ghost es: set<Extent>, ghost A: seq<Extent>, ghost k: nat, ghost z: Option<Piece>)
    returns (tmp: Extent)
    requires Mid(inode, es, A) && alts == ElemOrNull(A, 0) && k < |inode.order| && dh == inode.order[k]
    requires Ordered(Pieces(inode.order)) && Listed(Pieces(A), start, end, z) && start <= end
    requires FirstAfter(Pieces(inode.order), start, k) && dh.offF < start
    modifies inode`exts, inode`numExts, inode.dobjs`refs, inode.dobjs`numRefs, inode.dobjs`refSeq, inode.exts`prevRef
    ensures inode.order == old(inode.order)
    ensures fresh(tmp) && inode.exts == old(inode.exts) + {tmp} && Mid(inode, es, [tmp] + A)
    ensures
      IsHead(Pieces(inode.order[..k]) + Pieces([tmp] + A), old(Pieces(inode.order)), old(Pieces(A)), start, end, z)
    ensures Pieces(inode.order) == old(Pieces(inode.order))
    ensures Pieces([tmp] + A) == [Cut(old(Pieces(inode.order))[k], start)] + old(Pieces(A))
  {
    hide Mid, MidBut, Pieces, IsHead, Listed, FirstAfter, Ordered;
    ObjectOfPlaced(inode, es, A, dh);
    ghost var s, v, w := inode.order, Pieces(inode.order), Pieces(A);
    HeadStraddling(v, w, k, start, end, z);
    ghost var c := Cut(v[k], start);
    assert v[k] == PieceOf(dh);
    tmp := AddPending(inode, dh.dobj, dh.offF, dh.offDo, start - dh.offF, alts, es, A);
    assert PieceOf(tmp) == c;
    assert Pieces(A) == w;
    assert Pieces(s) == v;
    PiecesCons(tmp, A);
    PiecesSlice(s, k);
    SameSplit(v[..k], c, w);
  }

  /** The first n placed extents and the pending ones are X, and hold everything below `end`. */
  ghost predicate AtHead(s: seq<Extent>, A: seq<Extent>, n: nat, X: seq<Piece>, v: seq<Piece>, w: seq<Piece>,
      start: int, end: int, z: Option<Piece>)
    reads s`offF, s`offDo, s`length, A`offF, A`offDo, A`length
  {
    n <= |s| && Pieces(s[..n]) + Pieces(A) == X && IsHead(X, v, w, start, end, z)
  }

  /** The first n placed extents and the pending ones hold everything below `end`;
      the rest of the placed ones are still v from its m-th piece on. */
  ghost predicate AtSeam(s: seq<Extent>, A: seq<Extent>, n: nat, X: seq<Piece>, v: seq<Piece>, w: seq<Piece>, m: nat,
      start: int, end: int, z: Option<Piece>)
    reads s`offF, s`offDo, s`length, A`offF, A`offDo, A`length
  {
    && AtHead(s, A, n, X, v, w, start, end, z) && m <= |v| && EndBy(v, m, end) && EndsAfter(v, m, start)
    && Pieces(s[n..]) == v[m..]
  }

  lemma FirstAfterIs(v: seq<Piece>, start: int, end: int, k: nat)
    requires FirstAfter(v, start, k) && start <= end
    ensures EndBy(v, k, end) && EndsAfter(v, k, start)
    ensures EndBy(v, |v|, start) ==> k == |v|
    ensures k < |v| && End(v[k]) <= end ==> EndBy(v, k + 1, end) && EndsAfter(v, k + 1, start)
    ensures k <= |v| && (k > 0 ==> End(v[k - 1]) <= start)
  {
    assert k < |v| ==> start < End(v[k]);
  }

  /** The list neighbours of the k-th placed extent. */
  lemma Neighbours(inode: Inode, es: set<Extent>, A: seq<Extent>, k: nat)
    requires Mid(inode, es, A) && k < |inode.order|
    ensures inode.order[k] in es && es <= inode.exts
    ensures inode.order[k].prev == ElemOrNull(inode.order, k - 1)
    ensures inode.order[k].next == ElemOrNull(inode.order, k + 1)
    ensures k + 1 < |inode.order| ==> inode.order[k + 1] in es
  {
  }

  lemma MidTree(inode: Inode, es: set<Extent>, A: seq<Extent>)
    requires Mid(inode, es, A)
    ensures TreeOk(inode, es) && (inode.flayout == null <==> inode.order == [])
    ensures A != [] ==> A[0] in inode.exts
  {
  }

  /** Live extents with objects of the same address have the same object. */
  lemma SameObject(inode: Inode, es: set<Extent>, A: seq<Extent>, x: Extent, y: Extent)
    requires Mid(inode, es, A) && x in inode.exts && y in inode.exts
    ensures x.dobj == y.dobj <==> x.dobj.addr == y.dobj.addr
  {
    ObjectOf(inode, es, A, x);
    ObjectOf(inode, es, A, y);
  }

  /** The source's test for joining the head to the first new extent, on the pieces. */
  lemma SplitTest(inode: Inode, es: set<Extent>, A: seq<Extent>, dh: Extent, alts: Extent?, start: nat, k: nat)
    requires Mid(inode, es, A) && alts == ElemOrNull(A, 0) && k < |inode.order| && dh == inode.order[k]
    requires dh.offF < start
    ensures alts != null && dh.dobj == alts.dobj && dh.offDo + (start - dh.offF) == alts.offDo && start == alts.offF
      <==> Pieces(A) != [] && Mergeable(Cut(Pieces(inode.order)[k], start), Pieces(A)[0])
  {
    hide Mid, Pieces;
    assert Pieces(inode.order)[k] == PieceOf(dh);
    NoAlias(inode, es, A);
    if A != [] {
      assert Pieces(A)[0] == PieceOf(A[0]);
      SameObject(inode, es, A, dh, A[0]);
    }
  }

  /** dh reaches past the range: its part before `start` joins the first new extent or becomes a new one. */
  method SplitHead(inode: Inode, dh: Extent, alts: Extent?, start: nat, end: nat,
      ghost es: set<Extent>, ghost A: seq<Extent>, ghost k: nat, ghost z: Option<Piece>)
    returns (alts': Extent?, ghost A': seq<Extent>)
    requires Mid(inode, es, A) && alts == ElemOrNull(A, 0) && k < |inode.order| && dh == inode.order[k]
    requires Ordered(Pieces(inode.order)) && Listed(Pieces(A), start, end, z) && start <= end
    requires FirstAfter(Pieces(inode.order), start, k) && dh.offF < start && (z.Some? ==> start < end)
    modifies inode`exts, inode`numExts, inode.dobjs`refs, inode.dobjs`numRefs, inode.dobjs`refSeq, inode.exts`prevRef
    modifies inode.exts`offF, inode.exts`offDo, inode.exts`length
    ensures Mid(inode, es, A') && alts' == ElemOrNull(A', 0) && inode.order == old(inode.order)
    ensures old(inode.exts) <= inode.exts && fresh(inode.exts - old(inode.exts))
    ensures IsHead(Pieces(inode.order[..k]) + Pieces(A'), old(Pieces(inode.order)), old(Pieces(A)), start, end, z)
    ensures Pieces(inode.order) == old(Pieces(inode.order))
    ensures Pieces(A') == JoinAt([Cut(old(Pieces(inode.order))[k], start)] + old(Pieces(A)), 1)
    ensures A' != [] && (A != [] ==> A'[|A'| - 1] == A[|A| - 1])
  {
    hide Mid, MidBut, Pieces, IsHead, Listed, Ordered, FirstAfter, JoinAt, Mergeable;
    MidTree(inode, es, A);
    SplitTest(inode, es, A, dh, alts, start, k);
    ghost var c, w := Cut(Pieces(inode.order)[k], start), Pieces(A);
    var headLen := start - dh.offF;
    if alts != null && dh.dobj == alts.dobj && dh.offDo + headLen == alts.offDo && start == alts.offF {
      JoinHead(inode, dh, alts, start, end, es, A, k, z);
      alts', A' := alts, A;
    } else {
      alts' := NewHead(inode, dh, alts, start, end, es, A, k, z);
      A' := [alts'] + A;
      JoinFirst(c, w);
    }
  }

  /** The extents from the n-th on are still those of v. */
  lemma SeamAfterCut(s: seq<Extent>, A: seq<Extent>, n: nat, X: seq<Piece>, v: seq<Piece>, w: seq<Piece>, start: int,
      end: int, z: Option<Piece>)
    requires n <= |s| && |v| == |s| && EndBy(v, n, end) && EndsAfter(v, n, start)
    requires IsHead(X, v, w, start, end, z) && X == Pieces(s[..n]) + Pieces(A)
    requires Pieces(s) == v || Pieces(s[n..]) == v[n..]
    ensures AtSeam(s, A, n, X, v, w, n, start, end, z)
  {
    hide Pieces, IsHead;
    PiecesSlice(s, n);
  }

  /** The n-th piece starts before the range and reaches into it. */
  ghost predicate Straddled(v: seq<Piece>, n: nat, start: int) {
    n < |v| && v[n].offF < start
  }

  lemma CutFacts(v: seq<Piece>, k: nat, start: int, end: int)
    requires Ordered(v) && FirstAfter(v, start, k)
    ensures k == |v| || start <= v[k].offF ==> CutAt(v, k, start, end) && !Straddled(v, k, start)
    ensures k < |v| && v[k].offF < start ==>
      if end < End(v[k]) then CutAt(v, k, start, end) && Straddled(v, k, start)
      else CutAt(v, k + 1, start, end) && !Straddled(v, k + 1, start)
  {
    forall i | 0 <= i < k ensures v[i].offF < start { assert v[i].length > 0; }
  }

  /** The search ended inside dh: the range starts in the middle of it. */
  method CutStraddling(inode: Inode, dh0: Extent, alts: Extent?, start: nat, end: nat,
      ghost es: set<Extent>, ghost A: seq<Extent>, ghost k: nat, ghost z: Option<Piece>)
    returns (dh: Extent?, tor: Extent?, alts': Extent?, ghost A': seq<Extent>, ghost n: nat)
    requires Mid(inode, es, A) && alts == ElemOrNull(A, 0) && k < |inode.order| && dh0 == inode.order[k]
    requires Ordered(Pieces(inode.order)) && Listed(Pieces(A), start, end, z) && start <= end
    requires FirstAfter(Pieces(inode.order), start, k) && dh0.offF < start && (z.Some? ==> start < end)
    modifies inode`exts, inode`numExts, inode.dobjs`refs, inode.dobjs`numRefs, inode.dobjs`refSeq, inode.exts`prevRef
    modifies inode.exts`offF, inode.exts`offDo, inode.exts`length
    ensures Mid(inode, es, A') && alts' == ElemOrNull(A', 0)
    ensures old(inode.exts) <= inode.exts && fresh(inode.exts - old(inode.exts))
    ensures AtSeam(inode.order, A', n, HeadWith(old(Pieces(inode.order)), old(Pieces(A)), start, end),
      old(Pieces(inode.order)), old(Pieces(A)), n, start, end, z)
    ensures n == SeamIndex(old(Pieces(inode.order)), start, end)
    ensures dh == ElemOrNull(inode.order, n) && tor == ElemOrNull(inode.order, n - 1)
    ensures inode.order == old(inode.order) && n <= |inode.order|
    ensures (n > 0 ==> inode.order[n - 1].offF + inode.order[n - 1].length <= start)
    ensures A != [] ==> A' != [] && A'[|A'| - 1] == A[|A| - 1]
    ensures CutAt(old(Pieces(inode.order)), n, start, end)
    ensures if Straddled(old(Pieces(inode.order)), n, start) then A' != [] else A' == A && Pieces(A) == old(Pieces(A))
  {
    hide Mid, MidBut, TreeOk, Pieces, IsHead, Listed, Ordered, EndBy, EndsAfter, FirstAfter, AtSeam, CutAt, Straddled;
    hide CountBy, JoinAt;
    ghost var s, v, w := inode.order, Pieces(inode.order), Pieces(A);
    dh, alts', A', n := dh0, alts, A, k;
    Neighbours(inode, es, A, k);
    FirstAfterIs(v, start, end, k);
    CutFacts(v, k, start, end);
    CountByIs(v, start, k);
    PiecesSlice(s, k);
    assert v[k] == PieceOf(dh);
    if end < dh.offF + dh.length {
      assert k > 0 ==> v[k - 1] == PieceOf(s[k - 1]);
      alts', A' := SplitHead(inode, dh, alts, start, end, es, A, k, z);
      assert k > 0 ==> v[k - 1] == PieceOf(s[k - 1]);
      tor := dh.prev;
    } else {
      TrimHead(inode, dh, start, end, es, A, k, z);
      tor := dh;
      dh := dh.next;
      n := k + 1;
    }
    SeamAfterCut(s, A', n, HeadWith(v, w, start, end), v, w, start, end, z);
  }

  /** The range starts between two placed extents or at the start of one. */
  lemma SeamAtBoundary(s: seq<Extent>, A: seq<Extent>, k: nat, start: int, end: int, z: Option<Piece>)
    requires Ordered(Pieces(s)) && Listed(Pieces(A), start, end, z) && start <= end
    requires FirstAfter(Pieces(s), start, k) && (k < |s| ==> start <= s[k].offF)
    ensures AtSeam(s, A, k, HeadWith(Pieces(s), Pieces(A), start, end), Pieces(s), Pieces(A), k, start, end, z)
    ensures k == SeamIndex(Pieces(s), start, end)
  {
    hide Pieces, IsHead, Listed, Ordered, EndBy, EndsAfter;
    PiecesSlice(s, k);
    CountByIs(Pieces(s), start, k);
    assert k < |s| ==> Pieces(s)[k] == PieceOf(s[k]);
    FirstAfterIs(Pieces(s), start, end, k);
    HeadAtBoundary(Pieces(s), Pieces(A), k, start, end, z);
  }

  /** What the search found, in terms of the order. */
  lemma LocatedAt(inode: Inode, start: nat, dh: Extent?, tor: Extent?, straddles: bool, k: nat, es: set<Extent>)
    requires Located(inode, start, dh, tor, straddles, k, es)
    ensures FirstAfter(Pieces(inode.order), start, k) && k <= |inode.order| && dh == ElemOrNull(inode.order, k)
    ensures straddles ==> k < |inode.order| && dh == inode.order[k] && dh.offF < start
    ensures !straddles ==> tor == ElemOrNull(inode.order, k - 1) && (k < |inode.order| ==> start <= inode.order[k].offF)
    ensures k > 0 ==> Pieces(inode.order)[k - 1] == PieceOf(inode.order[k - 1])
    ensures k < |inode.order| ==> Pieces(inode.order)[k] == PieceOf(inode.order[k])
  {
    hide Pieces;
  }

  /** The first half of replace: the range's first extent is found and cut at `start`. */
  method CutHead(inode: Inode, alts: Extent?, start: nat, end: nat, ghost es: set<Extent>, ghost A: seq<Extent>,
      ghost z: Option<Piece>)
    returns (dh: Extent?, tor: Extent?, alts': Extent?, ghost A': seq<Extent>, ghost n: nat)
    requires Mid(inode, es, A) && alts == ElemOrNull(A, 0) && inode.flayout != null
    requires Ordered(Pieces(inode.order)) && Listed(Pieces(A), start, end, z) && start <= end
    requires z.Some? ==> start < end || EndBy(Pieces(inode.order), |inode.order|, start)
    modifies inode`exts, inode`numExts, inode.dobjs`refs, inode.dobjs`numRefs, inode.dobjs`refSeq, inode.exts`prevRef
    modifies inode.exts`offF, inode.exts`offDo, inode.exts`length
    ensures Mid(inode, es, A') && alts' == ElemOrNull(A', 0)
    ensures old(inode.exts) <= inode.exts && fresh(inode.exts - old(inode.exts))
    ensures AtSeam(inode.order, A', n, HeadWith(old(Pieces(inode.order)), old(Pieces(A)), start, end),
      old(Pieces(inode.order)), old(Pieces(A)), n, start, end, z)
    ensures n == SeamIndex(old(Pieces(inode.order)), start, end)
    ensures dh == ElemOrNull(inode.order, n) && tor == ElemOrNull(inode.order, n - 1)
    ensures inode.order == old(inode.order) && n <= |inode.order|
    ensures (n > 0 ==> inode.order[n - 1].offF + inode.order[n - 1].length <= start)
    ensures A != [] ==> A' != [] && A'[|A'| - 1] == A[|A| - 1]
    ensures CutAt(old(Pieces(inode.order)), n, start, end)
    ensures if Straddled(old(Pieces(inode.order)), n, start) then A' != [] else A' == A && Pieces(A) == old(Pieces(A))
    ensures EndBy(old(Pieces(inode.order)), |inode.order|, start) ==>
      n == |inode.order| && A' == A && Pieces(inode.order) == old(Pieces(inode.order))
  {
    hide Mid, MidBut, TreeOk, Pieces, AtSeam, Listed, Ordered, EndBy, EndsAfter, FirstAfter;
    hide Located, ElemOrNull, CutAt, Straddled, HeadWith, SeamIndex;
    var straddles;
    ghost var k, v := 0, Pieces(inode.order);
    MidTree(inode, es, A);
    dh, tor, straddles, k := Locate(inode, start, es);
    LocatedAt(inode, start, dh, tor, straddles, k, es);
    FirstAfterIs(v, start, end, k);
    CutFacts(v, k, start, end);
    if !straddles {
      n, alts', A' := k, alts, A;
      SeamAtBoundary(inode.order, A, k, start, end, z);
    } else {
      dh, tor, alts', A', n := CutStraddling(inode, dh, alts, start, end, es, A, k, z);
    }
  }

  /** tail, if any, is the last extent up to the seam. */
  ghost predicate TailAt(tail: Extent?, s: seq<Extent>, A: seq<Extent>, n: nat) {
    tail != null ==> if A != [] then tail == A[|A| - 1] else 0 < n <= |s| && tail == s[n - 1]
  }

  /** The empty piece after the first new extent has joined the extent before the range. */
  ghost function Unswallowed(z: Option<Piece>, s: seq<Extent>, n: nat, A: seq<Extent>): (r: Option<Piece>)
    reads s`offF, s`offDo, s`length
    ensures r == None || r == z
  {
    if z.Some? && |A| == 1 && 0 < n <= |s| && Mergeable(PieceOf(s[n - 1]), z.value) then None else z
  }

  /** While extents are pending, an empty last piece is the last of them. */
  lemma LastPending(s: seq<Extent>, A: seq<Extent>, n: nat, X: seq<Piece>, v: seq<Piece>, w: seq<Piece>, start: int,
      end: int, z: Option<Piece>)
    requires AtHead(s, A, n, X, v, w, start, end, z) && z.Some?
    ensures A != [] ==> PieceOf(A[|A| - 1]) == z.value
    ensures A == [] ==> n > 0 && PieceOf(s[n - 1]) == z.value
    ensures z.value.length == 0
  {
    hide Pieces;
    assert X[|X| - 1] == z.value;
  }

  lemma PendingNext(inode: Inode, es: set<Extent>, A: seq<Extent>)
    requires Mid(inode, es, A) && A != []
    ensures A[0].next == ElemOrNull(A[1..], 0)
    ensures |A| > 1 ==> A[|A| - 1] != A[0]
  {
  }

  /** The meeting pieces of the two sides of the seam may be merged. */
  lemma MergeSeam(s: seq<Extent>, A: seq<Extent>, n: nat, X: seq<Piece>, v: seq<Piece>, w: seq<Piece>, start: int,
      end: int, z: Option<Piece>)
    requires 0 < n && A != [] && AtHead(s, A, n, X, v, w, start, end, z)
    requires Mergeable(PieceOf(s[n - 1]), PieceOf(A[0]))
    ensures IsHead(JoinAt(X, n), v, w, start, end, if |A| == 1 then None else z)
    ensures JoinAt(X, n) == (Pieces(s[..n - 1]) + [Merged(PieceOf(s[n - 1]), PieceOf(A[0]))]) + Pieces(A[1..])
  {
    hide Pieces, IsHead, Mergeable;
    var u, p, q, r := Pieces(s[..n - 1]), PieceOf(s[n - 1]), PieceOf(A[0]), Pieces(A[1..]);
    assert X == u + [p, q] + r;
    assert X[n - 1] == p && X[n] == q && X[..n - 1] == u && X[n + 1..] == r;
    MergeHead(u, p, q, r, v, w, start, end, z);
  }

  /** The first new extent continues the extent before the range. */
  ghost predicate Joins(s: seq<Extent>, n: nat, A: seq<Extent>)
    reads s`offF, s`offDo, s`length, A`offF, A`offDo, A`length
  {
    A != [] && 0 < n <= |s| && Mergeable(PieceOf(s[n - 1]), PieceOf(A[0]))
  }

  /** An empty last piece that is not swallowed is still pending. */
  lemma EmptyPending(s: seq<Extent>, A: seq<Extent>, n: nat, X: seq<Piece>, v: seq<Piece>, w: seq<Piece>, m: nat,
      start: int, end: int, z: Option<Piece>)
    requires AtSeam(s, A, n, X, v, w, m, start, end, z) && z.Some?
    ensures Unswallowed(z, s, n, A).None? <==> |A| == 1 && Joins(s, n, A)
  {
    hide IsHead, Pieces, Mergeable;
    LastPending(s, A, n, X, v, w, start, end, z);
  }

  /** The source's test for that. */
  lemma JoinTest(s: seq<Extent>, n: nat, A: seq<Extent>, X: seq<Piece>, tor: Extent?, alts: Extent?)
    requires n <= |s| && tor == ElemOrNull(s, n - 1) && alts == ElemOrNull(A, 0) && X == Pieces(s[..n]) + Pieces(A)
    ensures Joins(s, n, A) <==>
      && tor != null && alts != null && tor.dobj.addr == alts.dobj.addr
      && tor.offDo + tor.length == alts.offDo && tor.offF + tor.length == alts.offF
    ensures Joins(s, n, A) ==> Mergeable(PieceOf(s[n - 1]), PieceOf(A[0]))
    ensures !Joins(s, n, A) ==> JoinAt(X, n) == X
  {
    hide Pieces;
    if 0 < n < |X| {
      assert X[n - 1] == PieceOf(s[n - 1]) && X[n] == PieceOf(A[0]);
    }
  }

  /** The first new extent joins the extent before the range if it continues it. */
  method MergeFirst(inode: Inode, tor: Extent?, alts: Extent?, tail: Extent?, ghost es: set<Extent>,
      ghost A: seq<Extent>,
      ghost n: nat, ghost X: seq<Piece>, ghost v: seq<Piece>, ghost w: seq<Piece>, ghost m: nat, start: nat, end: nat,
      ghost z: Option<Piece>)
    returns (alts': Extent?, tail': Extent?, ghost A': seq<Extent>, ghost z': Option<Piece>)
    requires Mid(inode, es, A) && alts == ElemOrNull(A, 0) && tor == ElemOrNull(inode.order, n - 1)
    requires AtSeam(inode.order, A, n, X, v, w, m, start, end, z) && TailAt(tail, inode.order, A, n)
    modifies inode`exts, inode`numExts, inode`doMap, inode`dobjs
    modifies inode.dobjs`refs, inode.dobjs`numRefs, inode.dobjs`refSeq, inode.exts`prevRef, inode.exts`nextRef
    modifies OrNone(tor)`length
    ensures Mid(inode, es, A') && alts' == ElemOrNull(A', 0)
    ensures A' == if old(Joins(inode.order, n, A)) then A[1..] else A
    ensures z' == old(Unswallowed(z, inode.order, n, A)) && (tail != null <==> tail' != null)
    ensures AtSeam(inode.order, A', n, JoinAt(X, n), v, w, m, start, end, z') && TailAt(tail', inode.order, A', n)
    ensures inode.dobjs <= old(inode.dobjs) && inode.exts <= old(inode.exts)
  {
    hide Mid, MidBut, TreeOk, Pieces, IsHead, EndBy, EndsAfter, Joins, Mergeable, Unswallowed, JoinAt;
    alts', tail', A', z' := alts, tail, A, Unswallowed(z, inode.order, n, A);
    NoAlias(inode, es, A);
    if tor != null && alts != null { SameObject(inode, es, A, tor, alts); }
    if z.Some? { EmptyPending(inode.order, A, n, X, v, w, m, start, end, z); }
    JoinTest(inode.order, n, A, X, tor, alts);
    if tor != null && alts != null && tor.dobj == alts.dobj
      && tor.offDo + tor.length == alts.offDo && tor.offF + tor.length == alts.offF
    {
      ghost var s, p, q := inode.order, PieceOf(tor), PieceOf(alts);
      ghost var u := Pieces(s[..n - 1]);
      MergeSeam(s, A, n, X, v, w, start, end, z);
      tor.length := tor.length + alts.length;
      assert Pieces(s[..n]) == u + [Merged(p, q)];
      assert Pieces(s[n..]) == old(Pieces(s[n..]));
      assert Pieces(A[1..]) == old(Pieces(A[1..]));
      if alts == tail { tail' := tor; }
      PendingNext(inode, es, A);
      alts', A' := alts.next, A[1..];
      DropPending(inode, alts, es, A);
    }
  }

  // ---- the loops

  /** Past the seam's next victim, whether it is replaced by the next new extent or removed. */
  lemma SeamAdvances(s: seq<Extent>, A: seq<Extent>, n: nat, X: seq<Piece>, v: seq<Piece>, w: seq<Piece>, m: nat,
      start: int, end: int, z: Option<Piece>)
    requires AtSeam(s, A, n, X, v, w, m, start, end, z) && n < |s| && s[n].offF + s[n].length <= end
    ensures A != [] ==> AtSeam(s[n := A[0]], A[1..], n + 1, X, v, w, m + 1, start, end, z)
    ensures A == [] ==> AtSeam(Without(s, n), A, n, X, v, w, m + 1, start, end, z)
  {
    hide Pieces, IsHead;
    assert v[m] == v[m..][0] == PieceOf(s[n..][0]) == PieceOf(s[n]);
    assert v[m + 1..] == v[m..][1..] == Pieces(s[n..])[1..];
    if A != [] {
      var s' := s[n := A[0]];
      assert Pieces(s'[n + 1..]) == Pieces(s[n..])[1..];
      assert Pieces(s'[..n + 1]) + Pieces(A[1..]) == Pieces(s[..n]) + Pieces(A);
    } else {
      var s' := Without(s, n);
      assert Pieces(s'[n..]) == Pieces(s[n..])[1..];
      assert s'[..n] == s[..n];
    }
  }

  lemma HeadApart(s: seq<Extent>, A: seq<Extent>, n: nat, X: seq<Piece>, v: seq<Piece>, w: seq<Piece>, start: int,
      end: int, z: Option<Piece>)
    requires 0 < n && AtHead(s, A, n, X, v, w, start, end, z)
    ensures (s[n - 1].length > 0 <==> z.None? || A != [])
    ensures (n > 1 ==> s[n - 2].offF + s[n - 2].length <= s[n - 1].offF)
  {
    hide Pieces;
    assert X[n - 1] == PieceOf(s[n - 1]);
    assert n > 1 ==> X[n - 2] == PieceOf(s[n - 2]);
  }

  lemma LiveRefs(inode: Inode, es: set<Extent>, A: seq<Extent>, e: Extent)
    requires Mid(inode, es, A) && e in es
    ensures TreeOk(inode, es) && RefsOk(inode) && e in inode.exts
  {
  }

  /** check_extent(newe, 1, 1) in the middle of the loops, when the order of the keys is broken beyond
      the seam: the last extent before the seam passes unless it is the empty extent of a list that has one. */
  lemma CheckExtentMidway(inode: Inode, es: set<Extent>, A: seq<Extent>, n: nat, X: seq<Piece>, v: seq<Piece>,
      w: seq<Piece>, m: nat, start: int, end: int, z: Option<Piece>)
    requires Mid(inode, es, A) && AtSeam(inode.order, A, n, X, v, w, m, start, end, z) && 0 < n
    ensures CheckExtent(inode.order[n - 1], true) <==> z.None? || A != []
  {
    hide Mid, TreeOk, RefsOk, IsHead, Pieces, RefLinksPass, TreeLinksPass;
    var e := inode.order[n - 1];
    Neighbours(inode, es, A, n - 1);
    LiveRefs(inode, es, A, e);
    RefLinksAt(inode, e);
    TreeLinksAt(inode, es, e);
    HeadApart(inode.order, A, n, X, v, w, start, end, z);
    if n > 1 { Neighbours(inode, es, A, n - 2); }
    if n < |inode.order| { Neighbours(inode, es, A, n); }
  }

  /** One victim: the next new extent replaces it, or it is removed. */
  method DeleteStep(inode: Inode, dh: Extent, tor: Extent?, alts: Extent?, tail: Extent?, ghost es: set<Extent>,
      ghost A: seq<Extent>,
      ghost n: nat, ghost X: seq<Piece>, ghost v: seq<Piece>, ghost w: seq<Piece>, ghost m: nat, start: nat, end: nat,
      ghost z: Option<Piece>)
    returns (passed: bool, dnext: Extent?, tor': Extent?, alts': Extent?, ghost es': set<Extent>,
        ghost A': seq<Extent>, ghost n': nat)
    requires Mid(inode, es, A) && alts == ElemOrNull(A, 0)
    requires AtSeam(inode.order, A, n, X, v, w, m, start, end, z) && TailAt(tail, inode.order, A, n)
    requires n < |inode.order| && dh == inode.order[n] && tor == ElemOrNull(inode.order, n - 1)
    requires dh.offF + dh.length <= end
    modifies inode`flayout, inode`shape, inode`order, inode`exts, inode`numExts, inode`doMap, inode`dobjs
    modifies inode.dobjs`refs, inode.dobjs`numRefs, inode.dobjs`refSeq
    modifies inode.exts`left, inode.exts`right, inode.exts`parent, inode.exts`pivot, inode.exts`depth
    modifies inode.exts`prev, inode.exts`next, inode.exts`prevRef, inode.exts`nextRef
    ensures inode.dobjs <= old(inode.dobjs) && inode.exts <= old(inode.exts)
    ensures Mid(inode, es', A') && alts' == ElemOrNull(A', 0)
    ensures AtSeam(inode.order, A', n', X, v, w, m + 1, start, end, z) && TailAt(tail, inode.order, A', n')
    ensures dnext == ElemOrNull(inode.order, n') && tor' == ElemOrNull(inode.order, n' - 1)
    ensures A' != [] ==> inode.order != []
    ensures (passed <==> A == [] || z.None? || A' != []) && |A'| == (if A == [] then 0 else |A| - 1)
  {
    hide Mid, MidBut, TreeOk, Pieces, IsHead, EndBy, EndsAfter, AtSeam, SetOf, CheckExtent;
    Neighbours(inode, es, A, n);
    ghost var s := inode.order;
    SeamAdvances(s, A, n, X, v, w, m, start, end, z);
    dnext, passed := dh.next, true;
    tor', alts', es', A', n' := tor, alts, es, A, n;
    if alts != null {
      PendingNext(inode, es, A);
      alts', A', n' := alts.next, A[1..], n + 1;
      SubstituteStep(inode, dh, alts, es, A, n);
      es' := es - {dh} + {alts};
      tor' := alts;
      CheckExtentMidway(inode, es', A', n', X, v, w, m + 1, start, end, z);
      passed := CheckExtent(tor', true);
    } else {
      RemoveStep(inode, dh, es, A, n);
      es' := es - {dh};
    }
  }

  /** The placed extents up to the seam with the pending ones form the head, the others the tail. */
  ghost predicate Cleared(s: seq<Extent>, A: seq<Extent>, n: nat, X: seq<Piece>, v: seq<Piece>, w: seq<Piece>,
      start: int, end: int, z: Option<Piece>)
    reads s`offF, s`offDo, s`length, A`offF, A`offDo, A`length
  {
    AtHead(s, A, n, X, v, w, start, end, z) && Pieces(s[n..]) == TailOf(v, end) && IsTail(TailOf(v, end), v, end)
  }

  lemma SeamFacts(s: seq<Extent>, A: seq<Extent>, n: nat, X: seq<Piece>, v: seq<Piece>, w: seq<Piece>, m: nat,
      start: int, end: int, z: Option<Piece>)
    requires AtSeam(s, A, n, X, v, w, m, start, end, z)
    ensures |s| - n == |v| - m && n <= |s| && m <= |v|
    ensures n < |s| ==> PieceOf(s[n]) == v[m] && start < End(v[m])
  {
    hide Pieces, IsHead;
    assert n < |s| ==> v[m] == v[m..][0] == PieceOf(s[n..][0]);
  }

  lemma SeamParts(s: seq<Extent>, A: seq<Extent>, n: nat, X: seq<Piece>, v: seq<Piece>, w: seq<Piece>, m: nat,
      start: int, end: int, z: Option<Piece>)
    requires AtSeam(s, A, n, X, v, w, m, start, end, z)
    ensures AtHead(s, A, n, X, v, w, start, end, z) && EndBy(v, m, end)
    ensures n <= |s| && m <= |v| && (n < |s| ==> m < |v| && Pieces(s[n + 1..]) == v[m + 1..])
  {
    hide IsHead;
    assert |Pieces(s[n..])| == |s| - n == |v| - m;
    if n < |s| { assert s[n..][1..] == s[n + 1..] && v[m..][1..] == v[m + 1..] && Pieces(s[n..])[1..] == v[m + 1..]; }
  }

  lemma PiecesFrom(s: seq<Extent>, n: nat)
    requires n < |s|
    ensures Pieces(s[n..]) == [PieceOf(s[n])] + Pieces(s[n + 1..])
  {
  }

  lemma NowCleared(s: seq<Extent>, A: seq<Extent>, n: nat, X: seq<Piece>, v: seq<Piece>, w: seq<Piece>, start: int,
      end: int, z: Option<Piece>)
    requires AtHead(s, A, n, X, v, w, start, end, z)
    requires Pieces(s[n..]) == TailOf(v, end) && IsTail(TailOf(v, end), v, end)
    ensures Cleared(s, A, n, X, v, w, start, end, z)
  {
  }

  /** No victims are left: what follows the seam starts at or after `end`. */
  lemma SeamEnds(s: seq<Extent>, A: seq<Extent>, n: nat, X: seq<Piece>, v: seq<Piece>, w: seq<Piece>, m: nat,
      start: int, end: int, z: Option<Piece>)
    requires AtSeam(s, A, n, X, v, w, m, start, end, z) && Ordered(v) && (n < |s| ==> end <= s[n].offF)
    ensures Cleared(s, A, n, X, v, w, start, end, z)
  {
    hide Pieces, IsHead, IsTail;
    SeamFacts(s, A, n, X, v, w, m, start, end, z);
    TailIs(v, m, end);
    TailAtBoundary(v, m, end);
  }

  lemma SeamStraddles(v: seq<Piece>, m: nat, end: int)
    requires Ordered(v) && m < |v| && EndBy(v, m, end) && end < End(v[m])
    ensures FirstAfter(v, end, m)
  {
  }

  /** The last victim reaches past the range and keeps its rest. */
  method TrimTail(inode: Inode, dh: Extent, ghost es: set<Extent>, ghost A: seq<Extent>, ghost n: nat,
      ghost X: seq<Piece>, ghost v: seq<Piece>, ghost w: seq<Piece>, ghost m: nat, start: nat, end: nat,
      ghost z: Option<Piece>)
    requires Mid(inode, es, A) && AtSeam(inode.order, A, n, X, v, w, m, start, end, z) && Ordered(v)
    requires n < |inode.order| && dh == inode.order[n] && dh.offF < end < dh.offF + dh.length
    modifies {dh}`offF, {dh}`offDo, {dh}`length
    ensures Mid(inode, es, A) && Cleared(inode.order, A, n, X, v, w, start, end, z)
  {
    hide Mid, MidBut, TreeOk, Pieces, IsHead, IsTail, Ordered, EndBy, EndsAfter, FirstAfter, TailOf, AtSeam, Cleared;
    NoAlias(inode, es, A);
    ghost var s := inode.order;
    SeamFacts(s, A, n, X, v, w, m, start, end, z);
    SeamParts(s, A, n, X, v, w, m, start, end, z);
    SeamStraddles(v, m, end);
    TailStraddling(v, m, end);
    TailIs(v, m, end);
    var diff := end - dh.offF;
    dh.offF := dh.offF + diff;
    dh.offDo := dh.offDo + diff;
    dh.length := dh.length - diff;
    assert Pieces(s[..n]) == old(Pieces(s[..n])) && Pieces(A) == old(Pieces(A));
    assert PieceOf(dh) == CutFront(v[m], end);
    assert Pieces(s[n + 1..]) == old(Pieces(s[n + 1..])) == v[m + 1..];
    PiecesFrom(s, n);
    NowCleared(s, A, n, X, v, w, start, end, z);
  }

  /** The deletion loop of replace. */
  method DeleteVictims(inode: Inode, dh0: Extent?, tor0: Extent?, alts0: Extent?, tail: Extent?, start: nat, end: nat,
      ghost es0: set<Extent>, ghost A0: seq<Extent>, ghost n0: nat, ghost X: seq<Piece>, ghost v: seq<Piece>,
      ghost w: seq<Piece>, ghost m0: nat, ghost z: Option<Piece>)
    returns (passed: bool, tor: Extent?, tol: Extent?, alts: Extent?, ghost es: set<Extent>, ghost A: seq<Extent>,
        ghost n: nat)
    requires Mid(inode, es0, A0) && alts0 == ElemOrNull(A0, 0) && Ordered(v)
    requires AtSeam(inode.order, A0, n0, X, v, w, m0, start, end, z) && TailAt(tail, inode.order, A0, n0)
    requires dh0 == ElemOrNull(inode.order, n0) && tor0 == ElemOrNull(inode.order, n0 - 1)
    requires A0 != [] ==> inode.order != []
    requires CutAt(v, m0, start, end) && (z.Some? ==> A0 != [])
    modifies inode`flayout, inode`shape, inode`order, inode`exts, inode`numExts, inode`doMap, inode`dobjs
    modifies inode.dobjs`refs, inode.dobjs`numRefs, inode.dobjs`refSeq
    modifies inode.exts`left, inode.exts`right, inode.exts`parent, inode.exts`pivot, inode.exts`depth
    modifies inode.exts`prev, inode.exts`next, inode.exts`prevRef, inode.exts`nextRef
    modifies inode.exts`offF, inode.exts`offDo, inode.exts`length
    ensures inode.dobjs <= old(inode.dobjs) && inode.exts <= old(inode.exts)
    ensures Mid(inode, es, A) && alts == ElemOrNull(A, 0)
    ensures Cleared(inode.order, A, n, X, v, w, start, end, z) && TailAt(tail, inode.order, A, n)
    ensures tol == ElemOrNull(inode.order, n) && tor == ElemOrNull(inode.order, n - 1)
    ensures A != [] ==> inode.order != []
    ensures passed <==> z.None? || |A0| > Contained(v, m0, start, end)
  {
    hide Mid, MidBut, TreeOk, Pieces, IsHead, IsTail, EndBy, EndsAfter, AtSeam, Cleared, TailAt, Ordered, CutAt;
    hide Contained;
    var dh := dh0;
    ghost var m := m0;
    tor, tol, alts, es, A, n := tor0, null, alts0, es0, A0, n0;
    passed := true;
    SeamFacts(inode.order, A, n, X, v, w, m, start, end, z);
    while dh != null
      invariant inode.dobjs <= old(inode.dobjs) && inode.exts <= old(inode.exts)
      invariant Mid(inode, es, A) && alts == ElemOrNull(A, 0)
      invariant AtSeam(inode.order, A, n, X, v, w, m, start, end, z) && TailAt(tail, inode.order, A, n)
      invariant dh == ElemOrNull(inode.order, n) && tor == ElemOrNull(inode.order, n - 1) && tol == null
      invariant A != [] ==> inode.order != []
      invariant m0 <= m <= |v| && (m > m0 ==> End(v[m0]) <= end)
      invariant Contained(v, m0, start, end) == m - m0 + Contained(v, m, start, end)
      invariant |A| == (if |A0| > m - m0 then |A0| - (m - m0) else 0) && (passed <==> z.None? || A != [])
      decreases |v| - m
    {
      SeamFacts(inode.order, A, n, X, v, w, m, start, end, z);
      ContainedNext(v, m0, m, start, end);
      assert dh.offF + dh.length == End(v[m]);
      passed := passed && dh.offF + dh.length > start;
      if end <= dh.offF {
        tol := dh;
        SeamEnds(inode.order, A, n, X, v, w, m, start, end, z);
        return;
      } else if end < dh.offF + dh.length {
        Neighbours(inode, es, A, n);
        TrimTail(inode, dh, es, A, n, X, v, w, m, start, end, z);
        tol := dh;
        return;
      }
      var checked;
      checked, dh, tor, alts, es, A, n := DeleteStep(inode, dh, tor, alts, tail, es, A, n, X, v, w, m, start, end, z);
      passed, m := passed && checked, m + 1;
    }
    SeamFacts(inode.order, A, n, X, v, w, m, start, end, z);
    ContainedNext(v, m0, m, start, end);
    SeamEnds(inode.order, A, n, X, v, w, m, start, end, z);
  }

  lemma ClearedBounds(s: seq<Extent>, A: seq<Extent>, n: nat, X: seq<Piece>, v: seq<Piece>, w: seq<Piece>, start: int,
      end: int, z: Option<Piece>)
    requires Cleared(s, A, n, X, v, w, start, end, z)
    ensures n <= |s|
  {
  }

  lemma InsertAdvances(s: seq<Extent>, A: seq<Extent>, n: nat, X: seq<Piece>, v: seq<Piece>, w: seq<Piece>,
      start: int, end: int, tail: Extent?, z: Option<Piece>)
    requires Cleared(s, A, n, X, v, w, start, end, z) && A != [] && TailAt(tail, s, A, n)
    ensures n <= |s|
    ensures var s' := Inserted(s, n, A[0]);
      && |s'| == |s| + 1 && s'[n] == A[0] && (n < |s| ==> s'[n + 1] == s[n])
      && Cleared(s', A[1..], n + 1, X, v, w, start, end, z) && TailAt(tail, s', A[1..], n + 1)
  {
    hide Pieces, IsHead, IsTail;
    var s' := Inserted(s, n, A[0]);
    assert s'[n + 1..] == s[n..];
    assert Pieces(s'[..n + 1]) + Pieces(A[1..]) == Pieces(s[..n]) + Pieces(A);
  }

  /** The insertion loop of replace: there is always an anchor, and every new extent is placed in order. */
  method InsertRest(inode: Inode, tor0: Extent?, tol: Extent?, alts0: Extent?, tail: Extent?, ghost es0: set<Extent>,
      ghost A0: seq<Extent>, ghost n0: nat, ghost X: seq<Piece>, ghost v: seq<Piece>, ghost w: seq<Piece>, start: nat,
      end: nat, ghost z: Option<Piece>)
    returns (ghost es: set<Extent>, ghost n: nat)
    requires Mid(inode, es0, A0) && alts0 == ElemOrNull(A0, 0)
    requires Cleared(inode.order, A0, n0, X, v, w, start, end, z) && TailAt(tail, inode.order, A0, n0)
    requires tol == ElemOrNull(inode.order, n0) && tor0 == ElemOrNull(inode.order, n0 - 1)
    requires A0 != [] ==> inode.order != []
    modifies inode`flayout, inode`shape, inode`order
    modifies inode.exts`left, inode.exts`right, inode.exts`parent, inode.exts`pivot, inode.exts`depth
    modifies inode.exts`prev, inode.exts`next
    ensures Mid(inode, es, []) && Cleared(inode.order, [], n, X, v, w, start, end, z)
    ensures TailAt(tail, inode.order, [], n)
  {
    hide Mid, MidBut, TreeOk, Pieces, IsHead, IsTail, Cleared, TailAt, Inserted;
    var tor, alts := tor0, alts0;
    ghost var A := A0;
    es, n := es0, n0;
    ClearedBounds(inode.order, A, n, X, v, w, start, end, z);
    while alts != null
      invariant Mid(inode, es, A) && alts == ElemOrNull(A, 0)
      invariant Cleared(inode.order, A, n, X, v, w, start, end, z) && TailAt(tail, inode.order, A, n)
      invariant n <= |inode.order|
      invariant if tor != null then n > 0 && tor == inode.order[n - 1] else tol == ElemOrNull(inode.order, n)
      invariant A != [] ==> tor != null || tol != null
      decreases |A|
    {
      var alte := alts;
      PendingNext(inode, es, A);
      alts := alts.next;
      InsertAdvances(inode.order, A, n, X, v, w, start, end, tail, z);
      if tor == null && tol == null { assert false; }
      ghost var s := Inserted(inode.order, n, A[0]);
      assert Cleared(s, A[1..], n + 1, X, v, w, start, end, z);
      InsertStep(inode, tor, tol, alte, es, A, n);
      assert Cleared(s, A[1..], n + 1, X, v, w, start, end, z);
      assert inode.order == s;
      if tor != null { tor := alte; }
      es, A, n := es + {alte}, A[1..], n + 1;
    }
  }

  // ---- the end of the range

  /** The test for merging, on the pieces. */
  lemma RunsInto(p: Extent, q: Extent?)
    ensures q != null && p.dobj.addr == q.dobj.addr && p.offF + p.length == q.offF && p.offDo + p.length == q.offDo ==>
      Mergeable(PieceOf(p), PieceOf(q))
    ensures q != null && Mergeable(PieceOf(p), PieceOf(q)) ==>
      p.dobj.addr == q.dobj.addr && p.offF + p.length == q.offF && p.offDo + p.length == q.offDo
  {
  }

  lemma NothingToAbsorb(v: seq<Piece>, end: int)
    ensures Absorbed(None, v, end)
  {
  }

  lemma FilledAround(s: seq<Extent>, n: nat, X: seq<Piece>, v: seq<Piece>, w: seq<Piece>, start: int, end: int,
      z: Option<Piece>)
    requires Cleared(s, [], n, X, v, w, start, end, z) && n > 0
    ensures forall i | 0 <= i < |s| && i != n - 1 :: s[i].length > 0
  {
    hide Pieces, Look, Sorted;
    var X, S := Pieces(s[..n]) + Pieces([]), Pieces(s[n..]);
    forall i | 0 <= i < |s| && i != n - 1 ensures s[i].length > 0 {
      if i < n { assert X[i] == PieceOf(s[i]); } else { assert S[i - n] == PieceOf(s[i]); }
    }
  }

  lemma ClearedSorted(s: seq<Extent>, n: nat, X: seq<Piece>, v: seq<Piece>, w: seq<Piece>, start: int, end: int,
      z: Option<Piece>)
    requires Cleared(s, [], n, X, v, w, start, end, z)
    ensures Sorted(Pieces(s)) && (n < |s| ==> Pieces(s[n..])[0] == PieceOf(s[n]))
  {
    hide Pieces, Look, Sorted, Filled, Positive;
    var X := Pieces(s[..n]);
    assert X + Pieces([]) == X;
    SortedConcat(X, Pieces(s[n..]), end);
    assert s == s[..n] + s[n..];
    PiecesConcat(s[..n], s[n..]);
  }

  /** Before the last placed new extent no extent is empty, and after it none either. */
  lemma HeadFilled(s: seq<Extent>, n: nat, X: seq<Piece>, v: seq<Piece>, w: seq<Piece>, start: int, end: int,
      z: Option<Piece>)
    requires Cleared(s, [], n, X, v, w, start, end, z) && n > 0
    ensures forall i | 0 <= i < |s| && i != n - 1 :: s[i].length > 0
    ensures Sorted(Pieces(s)) && (n < |s| ==> Pieces(s[n..])[0] == PieceOf(s[n]))
  {
    hide Cleared, Pieces, Sorted;
    FilledAround(s, n, X, v, w, start, end, z);
    ClearedSorted(s, n, X, v, w, start, end, z);
  }

  /** The two sides of the end of the range are the whole layout. */
  lemma WholeIs(s: seq<Extent>, n: nat, X: seq<Piece>, v: seq<Piece>, w: seq<Piece>, start: int, end: int,
      z: Option<Piece>)
    requires Cleared(s, [], n, X, v, w, start, end, z)
    ensures n <= |s| && |X| == n && Pieces(s) == X + TailOf(v, end)
  {
    hide Pieces, IsHead, IsTail, TailOf;
    assert s == s[..n] + s[n..];
    PiecesConcat(s[..n], s[n..]);
    assert X == Pieces(s[..n]);
  }

  lemma MergedOrdered(s: seq<Extent>, n: nat, X: seq<Piece>, v: seq<Piece>, w: seq<Piece>, start: int, end: int,
      z: Option<Piece>)
    requires Cleared(s, [], n, X, v, w, start, end, z) && 0 < n < |s| && Mergeable(PieceOf(s[n - 1]), PieceOf(s[n]))
    ensures var x, y := Pieces(s), JoinAt(X + TailOf(v, end), n);
      y == x[..n - 1] + [Merged(PieceOf(s[n - 1]), PieceOf(s[n]))] + x[n + 1..]
    ensures Ordered(Pieces(s)[..n - 1] + [Merged(PieceOf(s[n - 1]), PieceOf(s[n]))] + Pieces(s)[n + 1..])
  {
    hide Pieces, Cleared, Look, TailOf;
    WholeIs(s, n, X, v, w, start, end, z);
    HeadFilled(s, n, X, v, w, start, end, z);
    var x, p, q := Pieces(s), PieceOf(s[n - 1]), PieceOf(s[n]);
    assert x == x[..n - 1] + [p, q] + x[n + 1..];
    MergeKeeps(x[..n - 1], p, q, x[n + 1..]);
    var y := x[..n - 1] + [Merged(p, q)] + x[n + 1..];
    forall i | 0 <= i < |y| ensures y[i].length > 0 {
      if i < n - 1 { assert y[i] == PieceOf(s[i]); }
      if i >= n { assert y[i] == PieceOf(s[i + 1]); }
    }
  }

  /** What the last placed new extent and its successor have to do with the empty piece. */
  lemma LastFits(s: seq<Extent>, n: nat, X: seq<Piece>, v: seq<Piece>, w: seq<Piece>, start: int, end: int,
      z: Option<Piece>)
    requires Cleared(s, [], n, X, v, w, start, end, z) && n > 0 && (z.Some? ==> z.value.offF == end)
    ensures z.Some? ==> (Absorbed(z, v, end) <==> n < |s| && Mergeable(PieceOf(s[n - 1]), PieceOf(s[n])))
    ensures z.None? ==> Absorbed(z, v, end)
    ensures var x, y := Pieces(s), JoinAt(X + TailOf(v, end), n);
      y == if n < |s| && Mergeable(PieceOf(s[n - 1]), PieceOf(s[n]))
        then x[..n - 1] + [Merged(PieceOf(s[n - 1]), PieceOf(s[n]))] + x[n + 1..] else x
    ensures n < |s| && Mergeable(PieceOf(s[n - 1]), PieceOf(s[n])) ==>
      Ordered(Pieces(s)[..n - 1] + [Merged(PieceOf(s[n - 1]), PieceOf(s[n]))] + Pieces(s)[n + 1..])
  {
    hide Pieces, IsHead, Look, TailOf;
    HeadFilled(s, n, X, v, w, start, end, z);
    WholeIs(s, n, X, v, w, start, end, z);
    if z.Some? {
      LastPending(s, [], n, X, v, w, start, end, z);
      TailBegins(Pieces(s[n..]), v, end, Loc(z.value.addr, z.value.offDo));
    }
    if n < |s| && Mergeable(PieceOf(s[n - 1]), PieceOf(s[n])) {
      MergedOrdered(s, n, X, v, w, start, end, z);
    }
    if n < |s| { assert Pieces(s)[n - 1] == PieceOf(s[n - 1]) && Pieces(s)[n] == PieceOf(s[n]); }
  }

  lemma MergeInside(x: seq<Piece>, i: nat, v: seq<Piece>, w: seq<Piece>, start: int, end: int)
    requires i + 1 < |x| && Sorted(x) && Mergeable(x[i], x[i + 1]) && Overwrites(x, v, w, start, end)
    ensures var y := x[..i] + [Merged(x[i], x[i + 1])] + x[i + 2..];
      Sorted(y) && Overwrites(y, v, w, start, end)
    ensures x[i + 2..] == x[(i + 1) + 1..]
  {
    hide Look, Sorted, Mergeable;
    assert x == x[..i] + [x[i], x[i + 1]] + x[i + 2..];
    MergeKeeps(x[..i], x[i], x[i + 1], x[i + 2..]);
  }

  /** The extent after the range is taken over by tail and removed. */
  method Absorb(inode: Inode, tail: Extent, next: Extent, ghost es: set<Extent>,
      ghost n: nat, ghost X: seq<Piece>, ghost v: seq<Piece>, ghost w: seq<Piece>, ghost start: int, ghost end: int)
    returns (ghost es': set<Extent>)
    requires Mid(inode, es, []) && 0 < n < |inode.order| && tail == inode.order[n - 1] && next == inode.order[n]
    requires Mergeable(PieceOf(tail), PieceOf(next))
    requires Sorted(Pieces(inode.order)) && Overwrites(Pieces(inode.order), v, w, start, end)
    requires var x := Pieces(inode.order); Ordered(x[..n - 1] + [Merged(PieceOf(tail), PieceOf(next))] + x[n + 1..])
    modifies inode`flayout, inode`shape, inode`order, inode`exts, inode`numExts, inode`doMap, inode`dobjs
    modifies inode.dobjs`refs, inode.dobjs`numRefs, inode.dobjs`refSeq
    modifies inode.exts`left, inode.exts`right, inode.exts`parent, inode.exts`pivot, inode.exts`depth
    modifies inode.exts`prev, inode.exts`next, inode.exts`prevRef, inode.exts`nextRef, {tail}`length
    ensures inode.dobjs <= old(inode.dobjs) && inode.exts <= old(inode.exts)
    ensures Mid(inode, es', []) && Sorted(Pieces(inode.order)) && Overwrites(Pieces(inode.order), v, w, start, end)
    ensures Ordered(Pieces(inode.order))
    ensures var x := old(Pieces(inode.order));
      Pieces(inode.order) == x[..n - 1] + [old(Merged(PieceOf(tail), PieceOf(next)))] + x[n + 1..]
  {
    hide Mid, MidBut, TreeOk, Pieces, Ordered, Sorted, Overwrites, Mergeable;
    ghost var s, x, p, q := inode.order, Pieces(inode.order), PieceOf(tail), PieceOf(next);
    ghost var y := x[..n - 1] + [Merged(p, q)] + x[n + 1..];
    NoAlias(inode, es, []);
    MergeInside(x, n - 1, v, w, start, end);
    tail.length := tail.length + next.length;
    assert x[n - 1] == p && x[n] == q;
    assert Pieces(Without(s, n)) == y;
    RemoveStep(inode, next, es, [], n);
    es' := es - {next};
    assert inode.order == Without(s, n);
    assert Pieces(inode.order) == y;
  }

  lemma ClearedIs(s: seq<Extent>, n: nat, X: seq<Piece>, v: seq<Piece>, w: seq<Piece>, start: int, end: int,
      z: Option<Piece>)
    requires Cleared(s, [], n, X, v, w, start, end, z) && start <= end && Within(w, start, end)
    ensures Sorted(Pieces(s)) && Overwrites(Pieces(s), v, w, start, end) && (Ordered(Pieces(s)) <==> z.None?)
    ensures |X| == n && Pieces(s) == X + TailOf(v, end)
  {
    hide Pieces, IsHead, IsTail, Within, Ordered, Sorted, Overwrites, TailOf;
    Assemble(X, TailOf(v, end), v, w, start, end, z);
    WholeIs(s, n, X, v, w, start, end, z);
  }

  /** The last new extent takes over the extent after the range if it runs into it. */
  method MergeLast(inode: Inode, tail: Extent?, ghost es: set<Extent>,
      ghost n: nat, ghost X: seq<Piece>, ghost v: seq<Piece>, ghost w: seq<Piece>, start: int, end: int,
      ghost z: Option<Piece>)
    returns (ghost es': set<Extent>)
    requires Mid(inode, es, []) && Cleared(inode.order, [], n, X, v, w, start, end, z)
    requires TailAt(tail, inode.order, [], n)
    requires start <= end && Within(w, start, end) && (z.Some? ==> tail != null && z.value.offF == end)
    modifies inode`flayout, inode`shape, inode`order, inode`exts, inode`numExts, inode`doMap, inode`dobjs
    modifies inode.dobjs`refs, inode.dobjs`numRefs, inode.dobjs`refSeq
    modifies inode.exts`left, inode.exts`right, inode.exts`parent, inode.exts`pivot, inode.exts`depth
    modifies inode.exts`prev, inode.exts`next, inode.exts`prevRef, inode.exts`nextRef, OrNone(tail)`length
    ensures inode.dobjs <= old(inode.dobjs) && inode.exts <= old(inode.exts)
    ensures Mid(inode, es', []) && Sorted(Pieces(inode.order)) && Overwrites(Pieces(inode.order), v, w, start, end)
    ensures Ordered(Pieces(inode.order)) <==> Absorbed(z, v, end)
    ensures Pieces(inode.order) == Closed(X, TailOf(v, end), tail != null)
  {
    hide Mid, MidBut, TreeOk, Pieces, Ordered, Sorted, Overwrites, Within, Absorbed, Mergeable, Cleared, TailOf, JoinAt;
    es' := es;
    ghost var s, x := inode.order, Pieces(inode.order);
    ClearedIs(s, n, X, v, w, start, end, z);
    if tail == null {
      NothingToAbsorb(v, end);
    } else {
      Neighbours(inode, es, [], n - 1);
      LastFits(s, n, X, v, w, start, end, z);
      if n < |s| { SameObject(inode, es, [], s[n - 1], s[n]); }
      var next := tail.next;
      RunsInto(tail, next);
      if next != null && tail.dobj == next.dobj
        && tail.offF + tail.length == next.offF && tail.offDo + tail.length == next.offDo
      {
        es' := Absorb(inode, tail, next, es, n, X, v, w, start, end);
      }
    }
  }

  // ---- replace

  lemma SoleExtent(inode: Inode, x: Extent)
    requires inode.flayout == x && inode.shape == Node(Nil, x, Nil) && inode.order == [x]
    requires Loose(x) && x.next == null && x.pivot == RootOf(inode)
    ensures TreeOk(inode, {x})
  {
    var t := inode.shape;
    assert Elems(t) == {x} && Distinct(t);
    assert Inorder(t) == [] + [x] + [] == [x];
    assert LinksOk(t, x, RootOf(inode));
    assert Threaded([x], {x});
    assert DepthsOk({x}, null);
  }

  /** x becomes the whole layout. */
  method MakeRoot(inode: Inode, x: Extent)
    requires Loose(x)
    modifies inode`flayout, inode`shape, inode`order, {x}`next, {x}`pivot
    ensures TreeOk(inode, {x}) && inode.order == [x] && inode.flayout == x
  {
    hide TreeOk;
    inode.flayout := x;
    x.next := null;
    x.pivot := RootOf(inode);
    inode.shape, inode.order := Node(Nil, x, Nil), [x];
    SoleExtent(inode, x);
  }

  /** An empty layout: the first new extent becomes the root. */
  method PlaceRoot(inode: Inode, alte: Extent, ghost A: seq<Extent>)
    requires Mid(inode, {}, A) && A != [] && alte == A[0]
    modifies inode`flayout, inode`shape, inode`order, {alte}`next, {alte}`pivot
    ensures Mid(inode, {alte}, A[1..]) && inode.order == [alte] && inode.flayout == alte
  {
    hide TreeOk, RefsOk, MapOk, Occupied, Pending, SetOf;
    PendingAt(inode, {}, A);
    PendingEach(A, {}, inode.exts);
    label before:
    MakeRoot(inode, alte);
    SetOfTail(A);
    AddOne({}, SetOf(A), alte);
    StillPending@before(A, {}, inode.exts, {alte}, inode.exts);
  }

  lemma TailIn(inode: Inode, tail: Extent?, es: set<Extent>, n: nat)
    requires Mid(inode, es, []) && TailAt(tail, inode.order, [], n)
    ensures tail != null ==> tail in inode.exts
  {
  }

  lemma TailCut(tail: Extent?, s: seq<Extent>, A0: seq<Extent>, A: seq<Extent>, n: nat)
    requires n <= |s|
    requires tail != null ==> if A0 != [] then A != [] && tail == A[|A| - 1] && A[|A| - 1] == A0[|A0| - 1]
      else n == |s| && A == A0 && s == [tail]
    ensures TailAt(tail, s, A, n)
  {
  }

  /** Whether the merges at the two ends of the range take the empty last piece away. */
  lemma Fate(z: Option<Piece>, s: seq<Extent>, n: nat, A0: seq<Extent>, A: seq<Extent>, v: seq<Piece>, w: seq<Piece>,
      start: int, end: int)
    requires Listed(w, start, end, z) && n <= |s| == |v|
    requires n > 0 ==> s[n - 1].offF + s[n - 1].length <= start
    requires z.Some? ==> start < end || EndBy(v, |v|, start)
    requires EndBy(v, |v|, start) ==> n == |s| && A == A0 && Pieces(s) == v
    ensures var z' := Unswallowed(z, s, n, A);
      && (Absorbed(z', v, end) <==> Absorbed(z, v, end) || Swallowed(z, v, start, |A0|))
      && (z'.Some? ==> z' == z)
    ensures Within(w, start, end) && (z.Some? ==> z.value.offF == end)
  {
    hide Pieces, Look;
  }

  lemma NotEmpty(inode: Inode, es: set<Extent>, A: seq<Extent>)
    requires Mid(inode, es, A)
    ensures inode.flayout == null <==> inode.order == []
  {
  }

  /** The extent before the seam is live. */
  lemma SeamInside(inode: Inode, es: set<Extent>, A: seq<Extent>, n: nat, X: seq<Piece>, tor: Extent?, v: seq<Piece>,
      w: seq<Piece>, start: int, end: int, z: Option<Piece>)
    requires Mid(inode, es, A) && AtSeam(inode.order, A, n, X, v, w, n, start, end, z)
    requires tor == ElemOrNull(inode.order, n - 1) && inode.flayout != null
    ensures inode.order != [] && (tor != null ==> tor in inode.exts)
  {
    hide IsHead, Pieces;
  }

  /** The second half of replace: from the seam on, the range is emptied and filled, and its ends are merged. */
  method FillRange(inode: Inode, dh: Extent?, tor0: Extent?, alts0: Extent?, tail0: Extent?, start: nat, end: nat,
      ghost es0: set<Extent>, ghost A0: seq<Extent>, ghost n0: nat, ghost X: seq<Piece>, ghost v: seq<Piece>,
      ghost w: seq<Piece>, ghost z: Option<Piece>)
    returns (passed: bool, ghost es: set<Extent>)
    requires Mid(inode, es0, A0) && alts0 == ElemOrNull(A0, 0) && start <= end
    requires AtSeam(inode.order, A0, n0, X, v, w, n0, start, end, z) && TailAt(tail0, inode.order, A0, n0)
    requires dh == ElemOrNull(inode.order, n0) && tor0 == ElemOrNull(inode.order, n0 - 1)
    requires inode.flayout != null && Ordered(v) && Within(w, start, end)
    requires z.Some? ==> tail0 != null && z.value.offF == end && A0 != []
    requires CutAt(v, n0, start, end)
    modifies inode`flayout, inode`shape, inode`order, inode`exts, inode`numExts, inode`doMap, inode`dobjs
    modifies inode.dobjs`refs, inode.dobjs`numRefs, inode.dobjs`refSeq
    modifies inode.exts`left, inode.exts`right, inode.exts`parent, inode.exts`pivot, inode.exts`depth
    modifies inode.exts`prev, inode.exts`next, inode.exts`prevRef, inode.exts`nextRef
    modifies inode.exts`offF, inode.exts`offDo, inode.exts`length
    ensures inode.dobjs <= old(inode.dobjs) && inode.exts <= old(inode.exts)
    ensures Mid(inode, es, []) && Sorted(Pieces(inode.order)) && Overwrites(Pieces(inode.order), v, w, start, end)
    ensures Pieces(inode.order) == Closed(JoinAt(X, n0), TailOf(v, end), tail0 != null)
    ensures Ordered(Pieces(inode.order)) <==> Absorbed(old(Unswallowed(z, inode.order, n0, A0)), v, end)
    ensures passed <==> (old(Unswallowed(z, inode.order, n0, A0)).None?
      || |A0| > Contained(v, n0, start, end) + if old(Joins(inode.order, n0, A0)) then 1 else 0)
  {
    hide Mid, MidBut, TreeOk, Pieces, Ordered, Sorted, Overwrites, Cleared, AtSeam, Absorbed, Mergeable, TailAt, Within;
    hide ElemOrNull, CutAt, Contained, Unswallowed, Joins;
    hide JoinAt, TailOf, Closed;
    var tor, tol, alts, tail := tor0, null, alts0, tail0;
    ghost var A, n, z', Y := A0, n0, z, JoinAt(X, n0);
    es := es0;
    SeamInside(inode, es, A, n, X, tor, v, w, start, end, z);
    if z.Some? { EmptyPending(inode.order, A, n, X, v, w, n, start, end, z); }
    alts, tail, A, z' := MergeFirst(inode, tor, alts, tail, es, A, n, X, v, w, n, start, end, z);
    passed, tor, tol, alts, es, A, n := DeleteVictims(inode, dh, tor, alts, tail, start, end, es, A, n, Y, v, w, n, z');
    es, n := InsertRest(inode, tor, tol, alts, tail, es, A, n, Y, v, w, start, end, z');
    TailIn(inode, tail, es, n);
    es := MergeLast(inode, tail, es, n, Y, v, w, start, end, z');
  }

  /** The piece of X that covers the byte before the range is the last of its first n. */
  lemma LastBefore(X: seq<Piece>, n: nat, start: int, i: nat)
    requires Sorted(X) && n <= |X| && (n > 0 ==> X[n - 1].length > 0 && End(X[n - 1]) <= start)
    requires forall k | n <= k < |X| :: start <= X[k].offF
    requires i < |X| && Covers(X[i], start - 1)
    ensures i == n - 1 && End(X[i]) == start
  {
    assert i < n;
  }

  /** The first new extent continues the one before the range exactly if the old bytes say so. */
  lemma JoinsIs(s: seq<Extent>, A: seq<Extent>, n: nat, X: seq<Piece>, v: seq<Piece>, w: seq<Piece>, start: int,
      end: int, z: Option<Piece>)
    requires AtHead(s, A, n, X, v, w, start, end, z) && Pieces(A) == w && A != []
    requires Listed(w, start, end, z) && (n > 0 ==> s[n - 1].offF + s[n - 1].length <= start)
    ensures Joins(s, n, A) <==> Continues(v, w, start)
  {
    hide Pieces, Look, Sorted;
    assert w[0] == PieceOf(A[0]);
    if n > 0 { assert X[n - 1] == PieceOf(s[n - 1]) && X[n - 1].length > 0; }
    if Joins(s, n, A) { LookAt(X, n - 1, start - 1); }
    if Continues(v, w, start) {
      LookCovers(X, start - 1);
      var i :| 0 <= i < |X| && Covers(X[i], start - 1) && Look(X, start - 1) == Some(LocIn(X[i], start - 1));
      forall k | n <= k < |X| ensures start <= X[k].offF { assert X[k] == w[k - n]; }
      LastBefore(X, n, start, i);
    }
  }

  /** Whether there are enough new extents, counted before the range is entered. */
  lemma Tally(s: seq<Extent>, A0: seq<Extent>, A: seq<Extent>, n: nat, X: seq<Piece>, v: seq<Piece>, w: seq<Piece>,
      start: int, end: int, z: Option<Piece>)
    requires AtSeam(s, A, n, X, v, w, n, start, end, z) && z.Some? && A != [] && Ordered(v) && |s| == |v|
    requires Listed(w, start, end, z) && |w| == |A0| && (n > 0 ==> s[n - 1].offF + s[n - 1].length <= start)
    requires CutAt(v, n, start, end) && (start < end || EndBy(v, |v|, start))
    requires EndBy(v, |v|, start) ==> n == |s| && A == A0 && Pieces(s) == v
    requires if Straddled(v, n, start) then true else A == A0 && Pieces(A) == w
    ensures (Unswallowed(z, s, n, A).None? || |A| > Contained(v, n, start, end) + if Joins(s, n, A) then 1 else 0)
      <==> Swallowed(z, v, start, |A0|) || |A0| > Contained(v, 0, start, end) + if Continues(v, w, start) then 1 else 0
  {
    hide IsHead, Pieces, Contained;
    ContainedCut(v, n, start, end);
    EmptyPending(s, A, n, X, v, w, n, start, end, z);
    LastPending(s, A, n, X, v, w, start, end, z);
    if !Straddled(v, n, start) { JoinsIs(s, A, n, X, v, w, start, end, z); }
  }

  /** replace on a layout that is not empty. */
  method ReplaceIn(inode: Inode, alts0: Extent?, tail0: Extent?, start: nat, end: nat,
      ghost es0: set<Extent>, ghost A0: seq<Extent>, ghost z: Option<Piece>)
    returns (passed: bool, ghost es: set<Extent>)
    requires start <= end && inode.flayout != null
    requires Mid(inode, es0, A0) && alts0 == ElemOrNull(A0, 0)
    requires tail0 != null ==> if A0 != [] then tail0 == A0[|A0| - 1]
      else inode.order == [tail0] && EndBy(Pieces(inode.order), 1, start)
    requires Ordered(Pieces(inode.order)) && Listed(Pieces(A0), start, end, z)
    requires z.Some? ==> tail0 != null && A0 != [] && (start < end || EndBy(Pieces(inode.order), |inode.order|, start))
    modifies inode`flayout, inode`shape, inode`order, inode`exts, inode`numExts, inode`doMap, inode`dobjs
    modifies inode.dobjs`refs, inode.dobjs`numRefs, inode.dobjs`refSeq
    modifies inode.exts`left, inode.exts`right, inode.exts`parent, inode.exts`pivot, inode.exts`depth
    modifies inode.exts`prev, inode.exts`next, inode.exts`prevRef, inode.exts`nextRef
    modifies inode.exts`offF, inode.exts`offDo, inode.exts`length
    ensures inode.dobjs <= old(inode.dobjs) && fresh(inode.exts - old(inode.exts))
    ensures Mid(inode, es, []) && Sorted(Pieces(inode.order))
    ensures Overwrites(Pieces(inode.order), old(Pieces(inode.order)), old(Pieces(A0)), start, end)
    ensures Pieces(inode.order)
      == Stitched(old(Pieces(inode.order)), old(Pieces(A0)), start, end, tail0 != null)
    ensures Ordered(Pieces(inode.order))
      <==> Absorbed(z, old(Pieces(inode.order)), end) || Swallowed(z, old(Pieces(inode.order)), start, |A0|)
    ensures passed <==> (z.None? || Swallowed(z, old(Pieces(inode.order)), start, |A0|)
      || |A0| > Contained(old(Pieces(inode.order)), 0, start, end)
        + if Continues(old(Pieces(inode.order)), old(Pieces(A0)), start) then 1 else 0)
  {
    hide Mid, MidBut, TreeOk, Pieces, Ordered, Sorted, Overwrites, Listed, AtSeam, Absorbed, Swallowed, EndBy;
    hide Mergeable, TailAt, Unswallowed, Within, CutAt, Contained, Joins, Continues, Straddled;
    hide JoinAt, TailOf, Closed, HeadWith, SeamIndex;
    ghost var X := HeadWith(Pieces(inode.order), Pieces(A0), start, end);
    ghost var v, w := Pieces(inode.order), Pieces(A0);
    var dh, tor, alts := null, null, alts0;
    ghost var A, n := A0, 0;
    dh, tor, alts, A, n := CutHead(inode, alts, start, end, es0, A, z);
    NotEmpty(inode, es0, A);
    TailCut(tail0, inode.order, A0, A, n);
    Fate(z, inode.order, n, A0, A, v, w, start, end);
    if z.Some? { Tally(inode.order, A0, A, n, X, v, w, start, end, z); }
    passed, es := FillRange(inode, dh, tor, alts, tail0, start, end, es0, A, n, X, v, w, z);
  }

  lemma TailGiven(w: seq<Piece>, start: int, end: int, z: Option<Piece>)
    requires Listed(w, start, end, z)
    ensures z.Some? ==> w != []
    ensures Sorted(w) && Within(w, start, end)
  {
  }

  lemma NothingPlaced(inode: Inode, es: set<Extent>, A: seq<Extent>)
    requires Mid(inode, es, A) && inode.flayout == null
    ensures es == {} && inode.order == []
    ensures A != [] ==> A[0] in inode.exts
  {
  }

  /** The first new extent as a layout of its own. */
  lemma RootPieces(a: Extent, A: seq<Extent>, start: int, end: int, z: Option<Piece>)
    requires A != [] && a == A[0] && Listed(Pieces(A), start, end, z)
    ensures var w := Pieces(A);
      && Pieces([a]) == [w[0]] && Pieces(A[1..]) == w[1..] && w[0] == PieceOf(a)
      && (a.length > 0 ==> Ordered([w[0]]) && Listed(w[1..], End(w[0]), end, z) && (z.Some? ==> |A| > 1))
      && (a.length > 0 ==> End(w[0]) <= end && EndBy([w[0]], 1, End(w[0])))
  {
    hide Pieces, Listed, Ordered, EndBy;
    PiecesSlice(A, 1);
    if a.length > 0 { RestListed(Pieces(A), start, end, z); }
  }

  lemma NothingWritten(start: int, end: int, z: Option<Piece>)
    requires Listed([], start, end, z)
    ensures Ordered([]) && Sorted([]) && Overwrites([], [], [], start, end) && Settles(z, [], [], end)
    ensures Stands(z, [], [], start, end)
  {
  }

  /** An empty piece alone becomes an empty layout's only extent. */
  lemma LoneEmpty(w: seq<Piece>, start: int, end: int, z: Option<Piece>)
    requires Listed(w, start, end, z) && w != [] && w[0].length == 0
    ensures w == [w[0]] && Sorted(w) && !Ordered(w) && Overwrites(w, [], w, start, end) && !Settles(z, [], w, end)
    ensures !Stands(z, [], w, start, end)
  {
    forall b: int ensures Look(w, b) == None { LookNone(w, b); }
  }

  lemma RootSettles(w: seq<Piece>, start: int, end: int, z: Option<Piece>)
    requires Listed(w, start, end, z) && w != [] && w[0].length > 0
    ensures Settles(z, [], w, end) <==> Absorbed(z, [w[0]], end) || Swallowed(z, [w[0]], End(w[0]), |w| - 1)
  {
    LookNone([w[0]], end);
  }

  lemma PlacedSettles(v: seq<Piece>, w: seq<Piece>, start: int, end: int, z: Option<Piece>, k: nat)
    requires Listed(w, start, end, z) && v != [] && start < end
    ensures Settles(z, v, w, end) <==> Absorbed(z, v, end) || Swallowed(z, v, start, k)
  {
  }

  lemma RootStands(w: seq<Piece>, start: int, end: int, z: Option<Piece>)
    requires Listed(w, start, end, z) && w != [] && w[0].length > 0 && z.Some?
    ensures |w| > 1 && Contained([w[0]], 0, End(w[0]), end) == 0
    ensures Swallowed(z, [w[0]], End(w[0]), |w| - 1)
      || |w| - 1 > if Continues([w[0]], w[1..], End(w[0])) then 1 else 0
  {
    var v, r := [w[0]], w[1..];
    if Continues(v, r, End(w[0])) && |w| == 2 {
      LookAt(v, 0, End(w[0]) - 1);
      assert r[0] == z.value;
    }
  }

  lemma PlacedStands(v: seq<Piece>, w: seq<Piece>, start: int, end: int, z: Option<Piece>)
    requires Listed(w, start, end, z) && v != [] && start < end
    ensures !Swallowed(z, v, start, |w|)
    ensures Stands(z, v, w, start, end)
      <==> z.None? || |w| > Contained(v, 0, start, end) + if Continues(v, w, start) then 1 else 0
  {
  }

  /** An empty layout takes the new extents in, and the first two are joined if they can be. */
  lemma RootRewritten(w: seq<Piece>, end: int)
    ensures |w| <= 1 ==> JoinAt(w, 1) == w
    ensures w != [] && w[0].length > 0 && End(w[0]) <= end ==>
      Stitched([w[0]], w[1..], End(w[0]), end, true) == JoinAt(w, 1)
  {
    if w != [] && w[0].length > 0 && End(w[0]) <= end {
      var v := [w[0]];
      CountByIs(v, End(w[0]), 1);
      CountByIs(v, end, 1);
      assert v[..1] + w[1..] == w && v[1..] == [];
      var Y := JoinAt(w, 1);
      assert Y + [] == Y;
    }
  }

  /** incont.c's replace: [start, end) is overwritten by the pending extents.  The last of them may
      be empty; then the layout is in order afterwards exactly if it settles.  `passed` says whether
      all assertions on the way hold, those of check_extent included; what is computed is what the
      stores give with the assertions compiled out. */
  method Replace(inode: Inode, alts: Extent?, tail: Extent?, start: nat, end: nat,
      ghost es0: set<Extent>, ghost A: seq<Extent>, ghost z: Option<Piece>)
    returns (passed: bool, ghost es: set<Extent>)
    requires start < end
    requires Mid(inode, es0, A) && alts == ElemOrNull(A, 0) && tail == ElemOrNull(A, |A| - 1)
    requires Ordered(Pieces(inode.order)) && Listed(Pieces(A), start, end, z)
    modifies inode`flayout, inode`shape, inode`order, inode`exts, inode`numExts, inode`doMap, inode`dobjs
    modifies inode.dobjs`refs, inode.dobjs`numRefs, inode.dobjs`refSeq
    modifies inode.exts`left, inode.exts`right, inode.exts`parent, inode.exts`pivot, inode.exts`depth
    modifies inode.exts`prev, inode.exts`next, inode.exts`prevRef, inode.exts`nextRef
    modifies inode.exts`offF, inode.exts`offDo, inode.exts`length
    ensures inode.dobjs <= old(inode.dobjs) && fresh(inode.exts - old(inode.exts))
    ensures Mid(inode, es, []) && Sorted(Pieces(inode.order))
    ensures Overwrites(Pieces(inode.order), old(Pieces(inode.order)), old(Pieces(A)), start, end)
    ensures Pieces(inode.order) == Rewritten(old(Pieces(inode.order)), old(Pieces(A)), start, end)
    ensures z.None? ==> SeamsApart(Pieces(inode.order), old(Pieces(A)))
    ensures Ordered(Pieces(inode.order)) <==> Settles(z, old(Pieces(inode.order)), old(Pieces(A)), end)
    ensures passed <==> Stands(z, old(Pieces(inode.order)), old(Pieces(A)), start, end)
  {
    hide Mid, MidBut, TreeOk, Pieces, Ordered, Sorted, Overwrites, Listed, Settles, Absorbed, Swallowed, EndBy;
    hide Contained, Continues, Stitched, JoinAt, SeamsApart;
    passed, es := true, es0;
    MidTree(inode, es, A);
    ghost var v, w := Pieces(inode.order), Pieces(A);
    TailGiven(w, start, end, z);
    if z.None? { RewrittenApart(v, w, start, end); }
    if inode.flayout == null {
      assert v == [];
      if alts != null {
        NothingPlaced(inode, es, A);
        PendingNext(inode, es, A);
        var rest := alts.next;
        PlaceRoot(inode, alts, A);
        es := {alts};
        RootPieces(alts, A, start, end, z);
        var from := alts.offF + alts.length;
        if alts.length == 0 {
          // The search stops at the root, the loop asserts that the root ends after `from` and stops
          // at its first test, and nothing is left to insert or to merge.
          passed := alts.offF + alts.length > from;
          LoneEmpty(w, start, end, z);
          RootRewritten(w, end);
        } else {
          passed, es := ReplaceIn(inode, rest, tail, from, end, {alts}, A[1..], z);
          OverwriteFirst(Pieces(inode.order), w, start, end);
          RootSettles(w, start, end, z);
          RootRewritten(w, end);
          if z.Some? { RootStands(w, start, end, z); }
        }
      } else {
        NothingWritten(start, end, z);
        RootRewritten(w, end);
      }
    } else {
      passed, es := ReplaceIn(inode, alts, tail, start, end, es, A, z);
      PlacedSettles(v, w, start, end, z, |A|);
      PlacedStands(v, w, start, end, z);
    }
  }
}
