/** What a well-formed layout implies: exact heights, the AVL size bound, and the
    self-checks of incont.c and test.c. */
module Balance {
  import opened Sequences
  import opened Extents
  import opened Trees
  import opened Edits
  import opened Rebalancing
  import opened RefLists
  import opened Layouts
  import opened Checks
  import opened ByteMap
  import opened Replacing
  import opened FileSpec
  import opened Files
  import opened Reading

  ghost function Height(t: Tree): nat {
    if t.Nil? then 0 else 1 + if Height(t.l) > Height(t.r) then Height(t.l) else Height(t.r)
  }

  ghost predicate Balanced(t: Tree) {
    t.Node? ==> Abs(Height(t.l) - Height(t.r)) < 2 && Balanced(t.l) && Balanced(t.r)
  }

  function Fib(n: nat): nat { if n < 2 then n else Fib(n - 1) + Fib(n - 2) }

  lemma {:induction false} FibGrows(m: nat, n: nat)
    requires m <= n
    ensures Fib(m) <= Fib(n)
    decreases n
  {
    if m < n {
      if n >= 2 { FibGrows(if m < n - 1 then m else n - 1, n - 1); }
    }
  }

  lemma FibStep(n: nat)
    ensures Fib(n + 2) == Fib(n + 1) + Fib(n) && Fib(0) == 0 && Fib(1) == 1
  {
  }

  lemma BalancedNode(t: Tree)
    requires Balanced(t) && t.Node?
    ensures Balanced(t.l) && Balanced(t.r) && -1 <= Height(t.l) - Height(t.r) <= 1
    ensures Height(t) == 1 + (if Height(t.l) >= Height(t.r) then Height(t.l) else Height(t.r))
    ensures |Inorder(t)| == |Inorder(t.l)| + 1 + |Inorder(t.r)|
  {
  }

  /** A balanced tree of height h has at least Fib(h + 2) - 1 nodes. */
  lemma {:induction false} SizeBound(t: Tree)
    requires Balanced(t)
    ensures |Inorder(t)| >= Fib(Height(t) + 2) - 1
  {
    hide Fib, Balanced;
    if t.Nil? {
      FibStep(0);
    } else {
      hide Inorder, Height;
      BalancedNode(t);
      SizeBound(t.l);
      SizeBound(t.r);
      var h := Height(t);
      FibStep(h);
      FibGrows(h, (if Height(t.l) >= Height(t.r) then Height(t.r) else Height(t.l)) + 2);
    }
  }

  /** The stored depth of every extent is the height of the subtree under it, and the subtree is balanced. */
  lemma {:induction false} DepthIsHeight(inode: Inode, es: set<Extent>, s: Tree)
    requires TreeOk(inode, es) && IsSub(inode.shape, s)
    ensures Balanced(s) && Depth(Root(s)) == Height(s)
  {
    hide Elems, Inorder, Sub, SlotIn, Threaded;
    if s.Node? {
      var t := inode.shape;
      SubKids(t, s.e);
      assert s == Node(LeftSub(t, s.e), s.e, RightSub(t, s.e));
      assert LinksOk(t, s.e, RootOf(inode)) && DepthOk(s.e, es);
      DepthIsHeight(inode, es, s.l);
      DepthIsHeight(inode, es, s.r);
    }
  }

  lemma WholeTree(inode: Inode)
    requires Mid(inode, inode.exts, [])
    ensures TreeOk(inode, inode.exts) && IsSub(inode.shape, inode.shape)
    ensures Root(inode.shape) == inode.flayout && Inorder(inode.shape) == inode.order
  {
  }

  /** The root's depth, which bounds every search, is logarithmic in the number of extents. */
  lemma SearchBound(inode: Inode)
    requires Valid(inode)
    ensures inode.numExts >= Fib(Depth(inode.flayout) + 2) - 1
    ensures inode.numExts == |inode.order|
  {
    hide *;
    ValidParts(inode);
    TreeSize(inode);
    WholeTree(inode);
    DepthIsHeight(inode, inode.exts, inode.shape);
    SizeBound(inode.shape);
  }

  // ---- the counters

  ghost function SumRefs(ds: set<Dobject>): int
    reads ds`numRefs
  {
    if ds == {} then 0 else var d :| d in ds; d.numRefs + SumRefs(ds - {d})
  }

  lemma SplitOff(es: set<Extent>, ds: set<Dobject>, d: Dobject)
    requires d in ds
    ensures |set e | e in es && e.dobj in ds|
      == |set e | e in es && e.dobj == d| + |set e | e in es && e.dobj in ds - {d}|
  {
    var mine, rest := set e | e in es && e.dobj == d, set e | e in es && e.dobj in ds - {d};
    assert (set e | e in es && e.dobj in ds) == mine + rest;
    assert mine !! rest;
  }

  lemma OwnRefs(inode: Inode, d: Dobject)
    requires RefsOk(inode) && d in inode.dobjs
    ensures SetOf(d.refSeq) == (set e | e in inode.exts && e.dobj == d) && |SetOf(d.refSeq)| == d.numRefs
  {
    assert RefListOk(d, inode.exts);
    CountDistinct(d.refSeq);
    forall e | e in SetOf(d.refSeq) ensures e in inode.exts && e.dobj == d {
      var i :| 0 <= i < |d.refSeq| && d.refSeq[i] == e;
    }
  }

  lemma {:induction false} RefsOf(inode: Inode, ds: set<Dobject>)
    requires RefsOk(inode) && ds <= inode.dobjs
    ensures SumRefs(ds) == |set e | e in inode.exts && e.dobj in ds|
    decreases |ds|
  {
    hide RefListOk, RefsOk;
    if ds == {} {
      assert (set e | e in inode.exts && e.dobj in ds) == {};
    } else {
      var d :| d in ds && SumRefs(ds) == d.numRefs + SumRefs(ds - {d});
      RefsOf(inode, ds - {d});
      OwnRefs(inode, d);
      SplitOff(inode.exts, ds, d);
    }
  }

  /** numExts is the sum of all numRefs. */
  lemma RefsConserved(inode: Inode)
    requires RefsOk(inode)
    ensures SumRefs(inode.dobjs) == inode.numExts
  {
    hide RefListOk, SumRefs;
    var all := set e | e in inode.exts && e.dobj in inode.dobjs;
    RefsOf(inode, inode.dobjs);
    assert all == inode.exts;
  }

  // ---- the self-checks

  lemma ValidRefs(inode: Inode)
    requires Valid(inode)
    ensures RefsOk(inode)
  {
  }

  lemma ThreadedAt(inode: Inode, es: set<Extent>, k: nat)
    requires TreeOk(inode, es) && k < |inode.order|
    ensures inode.order[k].prev == ElemOrNull(inode.order, k - 1)
    ensures inode.order[k].next == ElemOrNull(inode.order, k + 1)
  {
  }

  /** Extents that follow each other in order do so in the file. */
  lemma FollowsAt(s: seq<Extent>, k: nat)
    requires Ordered(Pieces(s)) && k + 1 < |s|
    ensures s[k].offF + s[k].length <= s[k + 1].offF
  {
    hide Pieces;
    var v := Pieces(s);
    assert v[k] == PieceOf(s[k]) && v[k + 1] == PieceOf(s[k + 1]) && End(v[k]) <= v[k + 1].offF;
  }

  lemma FilledAt(s: seq<Extent>, k: nat)
    requires Ordered(Pieces(s)) && k < |s|
    ensures s[k].length > 0
  {
    hide Pieces;
    assert Pieces(s)[k] == PieceOf(s[k]);
  }

  /** The links of the list and the places of the neighbours. */
  lemma ListLinksAt(inode: Inode, es: set<Extent>, ext: Extent)
    requires TreeOk(inode, es) && Ordered(Pieces(inode.order)) && ext in es
    ensures ext.length > 0
    ensures ext.prev != null ==> ext.prev.next == ext && ext.prev.offF + ext.prev.length <= ext.offF
    ensures ext.next != null ==> ext.next.prev == ext && ext.next.offF >= ext.length + ext.offF
  {
    hide TreeOk, Pieces, Ordered, Rank;
    var s, k := inode.order, Rank(inode.shape, ext);
    RankFacts(inode, es, ext);
    FilledAt(s, k);
    if k > 0 {
      ThreadedAt(inode, es, k - 1);
      FollowsAt(s, k - 1);
    }
    if k + 1 < |s| {
      ThreadedAt(inode, es, k + 1);
      FollowsAt(s, k);
    }
  }

  /** check_extent never trips on an inode at rest. */
  lemma CheckExtentPasses(inode: Inode, ext: Extent)
    requires Valid(inode) && ext in inode.exts
    ensures CheckExtent(ext, false)
  {
    hide Valid, TreeOk, RefsOk, Mid, Pieces, Ordered, RefLinksPass, TreeLinksPass;
    ValidParts(inode);
    WholeTree(inode);
    ValidRefs(inode);
    RefLinksAt(inode, ext);
    TreeLinksAt(inode, inode.exts, ext);
    ListLinksAt(inode, inode.exts, ext);
  }

  /** check_dobject: the list's length is the counter. */
  method CheckDobject(inode: Inode, dobj: Dobject) returns (rc: nat)
    requires RefsOk(inode) && dobj in inode.dobjs
    ensures rc == dobj.numRefs
  {
    hide NoDup;
    assert RefListOk(dobj, inode.exts);
    rc := 0;
    var ref := dobj.refs;
    while ref != null
      invariant rc <= |dobj.refSeq| && ref == ElemOrNull(dobj.refSeq, rc)
      decreases |dobj.refSeq| - rc
    {
      assert dobj.refSeq[rc] == ref;
      rc, ref := rc + 1, ref.nextRef;
    }
  }

  lemma LiveParts(s: Tree, es: set<Extent>)
    requires s.Node? && Elems(s) <= es
    ensures forall i | 0 <= i < |Inorder(s)| :: Inorder(s)[i] in es
    ensures forall i | 0 <= i < |Inorder(s.l)| :: Inorder(s.l)[i] in es
    ensures forall i | 0 <= i < |Inorder(s.r)| :: Inorder(s.r)[i] in es
  {
    hide Inorder;
    InorderElems(s);
    InorderElems(s.l);
    InorderElems(s.r);
  }

  /** Disjoint and in file order. */
  ghost predicate Apart(b: seq<Extent>)
    reads b`offF, b`length
  {
    forall i, j | 0 <= i < j < |b| :: b[i].offF + b[i].length <= b[j].offF
  }

  lemma SubSorted(a: seq<Extent>, b: seq<Extent>, c: seq<Extent>, s: seq<Extent>)
    requires s == a + b + c && Sorted(Pieces(s))
    ensures Apart(b)
  {
    hide Pieces;
    var v := Pieces(s);
    forall i, j | 0 <= i < j < |b| ensures b[i].offF + b[i].length <= b[j].offF {
      assert v[|a| + i] == PieceOf(b[i]) && v[|a| + j] == PieceOf(b[j]);
    }
  }

  /** The subtree under cur: its children's subtrees, and the order of their extents. */
  lemma BstNode(inode: Inode, es: set<Extent>, cur: Extent, s: Tree)
    requires TreeOk(inode, es) && Sorted(Pieces(inode.order)) && cur in es && s == Sub(inode.shape, cur)
    ensures s.Node? && Inorder(s) == Inorder(s.l) + [cur] + Inorder(s.r)
    ensures if cur.left == null then Inorder(s.l) == [] else cur.left in es && s.l == Sub(inode.shape, cur.left)
    ensures if cur.right == null then Inorder(s.r) == [] else cur.right in es && s.r == Sub(inode.shape, cur.right)
    ensures Apart(Inorder(s))
    ensures forall i | 0 <= i < |Inorder(s)| :: Inorder(s)[i] in es
    ensures forall i | 0 <= i < |Inorder(s.l)| :: Inorder(s.l)[i] in es
    ensures forall i | 0 <= i < |Inorder(s.r)| :: Inorder(s.r)[i] in es
  {
    hide DepthsOk, Threaded, Pieces, Sub, SlotIn, Elems;
    var t := inode.shape;
    assert LinksOk(t, cur, RootOf(inode));
    SubKids(t, cur);
    KidSlots(t, cur, RootOf(inode));
    SubIn(t, cur);
    SubSorted(Before(t, cur), Inorder(s), After(t, cur), inode.order);
    LiveParts(s, es);
  }

  lemma BstEdges(l: seq<Extent>, x: Extent, r: seq<Extent>)
    requires Apart(l + [x] + r)
    ensures l != [] ==> l[|l| - 1].offF + l[|l| - 1].length <= x.offF && l[0].offF <= x.offF
    ensures r != [] ==> x.offF + x.length <= r[0].offF
  {
    var b := l + [x] + r;
    assert b[|l|] == x;
    if l != [] { assert b[0] == l[0] && b[|l| - 1] == l[|l| - 1]; }
    if r != [] { assert b[|l| + 1] == r[0]; }
  }

  /** check_bst of test.c: along the pointers, the least start and the greatest end
      of the subtree under cur; no child oversteps its parent. */
  method CheckBst(inode: Inode, cur: Extent, ghost es: set<Extent>, ghost s: Tree) returns (max: nat, min: nat)
    requires TreeOk(inode, es) && Sorted(Pieces(inode.order)) && cur in es && s == Sub(inode.shape, cur)
    ensures Inorder(s) != [] && min == Inorder(s)[0].offF
    ensures var l := Inorder(s)[|Inorder(s)| - 1]; max == l.offF + l.length
    decreases s
  {
    hide TreeOk, Sorted, Pieces, Inorder, Sub, LeftSub, RightSub, Elems;
    BstNode(inode, es, cur, s);
    BstEdges(Inorder(s.l), cur, Inorder(s.r));
    var Cs, Ce := cur.offF, cur.offF + cur.length;
    if cur.left != null {
      var cmax, cmin := CheckBst(inode, cur.left, es, s.l);
      assert cmax <= Cs && cmin <= Cs;
      min := cmin;
    } else {
      min := Cs;
    }
    if cur.right != null {
      var cmax, cmin := CheckBst(inode, cur.right, es, s.r);
      assert Ce <= cmin;
      max := cmax;
    } else {
      max := Ce;
    }
  }

  lemma RootSub(t: Tree)
    requires t.Node?
    ensures Sub(t, t.e) == t
  {
  }

  /** The first and the last byte of a layout are mapped, and none is outside. */
  lemma EdgesMapped(inode: Inode)
    requires Valid(inode) && inode.order != []
    ensures var s, f := inode.order, FileOf(inode);
      var lo, hi := s[0].offF, s[|s| - 1].offF + s[|s| - 1].length;
      lo < hi && hi - 1 in f.bytes && forall b :: b in f.bytes ==> lo <= b < hi
  {
    hide Mid, Pieces, Look;
    var s, v, f := inode.order, Pieces(inode.order), FileOf(inode);
    var n := |s| - 1;
    assert v[n] == PieceOf(s[n]) && v[0] == PieceOf(s[0]) && v[n].length > 0;
    LookAt(v, n, End(v[n]) - 1);
    forall b | b in f.bytes ensures v[0].offF <= b < End(v[n]) {
      LookCovers(v, b);
      var i :| 0 <= i < |v| && Covers(v[i], b);
      assert v[0].length > 0 && v[i].length > 0 && v[n].length > 0;
    }
  }

  lemma RootLive(inode: Inode)
    requires Mid(inode, inode.exts, []) && inode.flayout != null
    ensures TreeOk(inode, inode.exts) && inode.flayout in inode.exts
    ensures inode.shape == Sub(inode.shape, inode.flayout) && Inorder(inode.shape) == inode.order
  {
    hide Mid, TreeOk, Inorder, Sub, Before, After, Pieces;
    WholeTree(inode);
    RootSub(inode.shape);
    RootNarrowed(inode, 0, inode.exts);
  }

  /** check_bst on the whole layout: where it starts and where it ends. */
  method CheckSpan(inode: Inode) returns (max: nat, min: nat)
    requires Mid(inode, inode.exts, []) && Sorted(Pieces(inode.order)) && inode.flayout != null
    ensures var s := inode.order;
      s != [] && min == s[0].offF && max == s[|s| - 1].offF + s[|s| - 1].length
  {
    hide Mid, TreeOk, Sorted, Pieces, Inorder, Sub;
    RootLive(inode);
    max, min := CheckBst(inode, inode.flayout, inode.exts, inode.shape);
  }

  /** print_inode's checks: the greatest end check_bst finds is at most the size. */
  method CheckLayout(inode: Inode) returns (max: nat, min: nat)
    requires Valid(inode) && Sized(FileOf(inode)) && inode.flayout != null
    ensures min < max <= inode.size
    ensures forall b :: b in FileOf(inode).bytes ==> min <= b < max
  {
    hide Mid, Pieces, Sorted, Look;
    max, min := CheckSpan(inode);
    EdgesMapped(inode);
  }

  lemma LinkedParts(inode: Inode)
    requires WellLinked(inode)
    ensures Mid(inode, inode.exts, []) && Sorted(Pieces(inode.order))
    ensures (forall i | 0 <= i < |inode.order| :: inode.order[i].length > 0) ==> Valid(inode)
    ensures Valid(inode) ==> Ordered(Pieces(inode.order))
  {
    hide Mid, Pieces;
  }

  lemma OrderLive(inode: Inode, k: nat)
    requires Mid(inode, inode.exts, []) && k < |inode.order|
    ensures inode.order[k] in inode.exts
  {
  }

  lemma CheckedLength(ext: Extent)
    ensures CheckExtent(ext, false) ==> ext.length > 0
  {
  }

  /** print_extent of test.c: whether check_extent passes from `first` on and the extents are as many as counted. */
  method PrintExtents(inode: Inode, first: Extent?, ghost k: nat) returns (passed: bool)
    requires WellLinked(inode) && k <= |inode.order| && first == ElemOrNull(inode.order, k)
    ensures passed <==> k == 0 && Valid(inode)
  {
    hide WellLinked, Valid, Mid, Pieces, Sorted, CheckExtent;
    LinkedParts(inode);
    TreeSize(inode);
    passed := true;
    var num: nat, ext := 0, first;
    while ext != null
      invariant k + num <= |inode.order| && ext == ElemOrNull(inode.order, k + num)
      invariant passed ==> forall i | k <= i < k + num :: inode.order[i].length > 0
      invariant Valid(inode) ==> passed
      decreases |inode.order| - num
    {
      OrderLive(inode, k + num);
      Neighbours(inode, inode.exts, [], k + num);
      CheckedLength(ext);
      if Valid(inode) { CheckExtentPasses(inode, ext); }
      passed := passed && CheckExtent(ext, false);
      num, ext := num + 1, ext.next;
    }
    if inode.numExts > 0 { passed := passed && num == inode.numExts; }
  }

  lemma NoneSkipped(v: seq<Piece>, k: nat)
    requires FirstAfter(v, 0, k) && Ordered(v)
    ensures k == 0
  {
    assert k > 0 ==> v[0].length > 0;
  }

  lemma SpanFits(inode: Inode)
    requires Valid(inode) && Sized(FileOf(inode)) && inode.order != []
    ensures var l := inode.order[|inode.order| - 1]; l.offF + l.length <= inode.size
  {
    hide Valid, BytesOf;
    EdgesMapped(inode);
  }

  /** print_inode of test.c: its assertions hold exactly of an inode whose extents are in order and none is empty. */
  method PrintInode(inode: Inode) returns (passed: bool)
    requires WellLinked(inode)
    ensures passed ==> Valid(inode)
    ensures Valid(inode) && Sized(FileOf(inode)) ==> passed
  {
    hide WellLinked, Valid, Mid, Pieces, Sorted, Ordered, TreeOk, FirstAfter, LinearScan, FileOf, Sized;
    LinkedParts(inode);
    MidTree(inode, inode.exts, []);
    var first: Extent?;
    ghost var k: nat;
    ghost var rounds;
    first, k, rounds := FindStartExtent(inode, 0, inode.exts);
    if Valid(inode) { NoneSkipped(Pieces(inode.order), k); }
    passed := PrintExtents(inode, first, k);
    if inode.flayout != null {
      var max, min := CheckSpan(inode);
      if Valid(inode) && Sized(FileOf(inode)) { SpanFits(inode); }
      passed := passed && inode.size >= max;
    }
  }
}
