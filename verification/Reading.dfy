/** find_start_extent and pado_read of incont.c. */
module Reading {
  import opened Extents
  import opened Trees
  import opened Edits
  import opened Rebalancing
  import opened Layouts
  import opened ByteMap
  import opened Replacing
  import opened FileSpec
  import opened ReadLists
  import opened Files

  // ---- the search

  /** The first extent of a list that ends after `start`, found by linear scan. */
  ghost function LinearScan(s: seq<Extent>, start: nat): Extent?
    reads s`offF, s`length
  {
    if s == [] then null
    else if start < s[0].offF + s[0].length then s[0]
    else LinearScan(s[1..], start)
  }

  lemma {:induction false} ScanIs(s: seq<Extent>, start: nat, k: nat)
    requires FirstAfter(Pieces(s), start, k)
    ensures k <= |s| && LinearScan(s, start) == ElemOrNull(s, k)
  {
    if s != [] {
      assert Pieces(s)[0] == PieceOf(s[0]);
      if k > 0 {
        PiecesSlice(s, 1);
        assert forall i | 0 <= i < |s| - 1 :: Pieces(s)[1..][i] == Pieces(s)[i + 1];
        ScanIs(s[1..], start, k - 1);
      }
    }
  }

  /** Children are less deep than their parent. */
  lemma Shallower(inode: Inode, es: set<Extent>, x: Extent)
    requires TreeOk(inode, es) && x in es
    ensures x.depth >= 1 && (x.left != null ==> x.left.depth < x.depth) && (x.right != null ==> x.right.depth < x.depth)
  {
    assert DepthOk(x, es);
  }

  lemma EmptyLayout(inode: Inode, start: nat, es: set<Extent>)
    requires TreeOk(inode, es)
    ensures inode.flayout == null ==> FirstAfter(Pieces(inode.order), start, 0) && inode.order == []
  {
  }

  /** One round of the search at cur0. */
  method FindRound(inode: Inode, start: nat, cur0: Extent, ghost es: set<Extent>)
    returns (found: bool, cur: Extent?, ghost k: nat)
    requires TreeOk(inode, es) && Sorted(Pieces(inode.order)) && cur0 in es && Narrowed(inode, start, cur0)
    ensures found ==> FirstAfter(Pieces(inode.order), start, k) && cur == ElemOrNull(inode.order, k)
    ensures !found ==> cur != null && cur in es && Narrowed(inode, start, cur)
    ensures !found ==>
      |Before(inode.shape, cur)| + |After(inode.shape, cur)| > |Before(inode.shape, cur0)| + |After(inode.shape, cur0)|
    ensures |Before(inode.shape, cur0)| + |After(inode.shape, cur0)| <= |inode.order|
    ensures !found ==> cur.depth < cur0.depth
  {
    hide Elems, Inorder, Rank, Before, After, Pieces, TreeOk, Sorted, Positive, EndBy, StartAfter, FirstAfter;
    ghost var t, s, v := inode.shape, inode.order, Pieces(inode.order);
    NodeFacts(inode, es, cur0);
    Shallower(inode, es, cur0);
    ghost var r := Rank(t, cur0);
    assert v[r] == PieceOf(cur0);
    SearchStep(v, |Before(t, cur0)|, r, |s| - |After(t, cur0)|, start);
    found, cur, k := true, cur0, r;
    var cs := cur.offF;
    var ce := cs + cur.length;
    if cs <= start && start < ce {
    } else if start < cs && cur.left != null {
      found, cur := false, cur.left;
    } else if start < cs && cur.left == null {
    } else if ce <= start && cur.right != null {
      found, cur := false, cur.right;
    } else {
      cur, k := cur.next, r + 1;
    }
  }

  /** find_start_extent: the tree search finds what a linear scan would find, in at most
      as many rounds as the root is deep. */
  method FindStartExtent(inode: Inode, start: nat, ghost es: set<Extent>)
    returns (cur: Extent?, ghost k: nat, ghost rounds: nat)
    requires TreeOk(inode, es) && Sorted(Pieces(inode.order))
    ensures FirstAfter(Pieces(inode.order), start, k) && k <= |inode.order| && cur == ElemOrNull(inode.order, k)
    ensures cur == LinearScan(inode.order, start) && rounds <= Depth(inode.flayout)
  {
    hide Elems, Inorder, Rank, Before, After, Pieces, TreeOk, Sorted, Positive, EndBy, StartAfter, FirstAfter;
    hide LinearScan;
    cur, k, rounds := inode.flayout, 0, 0;
    EmptyLayout(inode, start, es);
    if cur != null {
      RootNarrowed(inode, start, es);
      Shallower(inode, es, cur);
    }
    while cur != null
      invariant cur == null ==> FirstAfter(Pieces(inode.order), start, k) && cur == ElemOrNull(inode.order, k)
      invariant cur != null ==> cur in es && Narrowed(inode, start, cur) && rounds + cur.depth <= Depth(inode.flayout)
      invariant rounds <= Depth(inode.flayout)
      decreases if cur == null then 0
        else 2 * |inode.order| - |Before(inode.shape, cur)| - |After(inode.shape, cur)| + 1
    {
      var found;
      Shallower(inode, es, cur);
      rounds := rounds + 1;
      found, cur, k := FindRound(inode, start, cur, es);
      if found { break; }
    }
    ScanIs(inode.order, start, k);
  }

  // ---- reading

  datatype ReadReply = ReadDone | InvalidRange | BaseCloned

  /** No object offset runs past the end of size_t. */
  ghost predicate Addressable(v: seq<Piece>) {
    forall i | 0 <= i < |v| :: v[i].offDo + v[i].length <= W
  }

  ghost predicate HasHole(v: seq<Piece>, lo: int, hi: int) {
    exists b :: lo <= b < hi && Look(v, b).None?
  }

  /** The same of the file, up to its size. */
  lemma HolesAre(f: File, v: seq<Piece>, lo: int, hi: int)
    requires f.bytes == BytesOf(v)
    ensures HoleIn(f, lo, hi) <==> HasHole(v, lo, if hi < f.size then hi else f.size)
    ensures f.size <= lo || hi <= lo ==> !HoleIn(f, lo, hi)
  {
    if b :| lo <= b < hi && b < f.size && b !in f.bytes { assert Look(v, b).None?; }
    if b :| lo <= b < hi && b < f.size && Look(v, b).None? { assert b !in f.bytes; }
  }

  /** The state of pado_read's loop. */
  ghost predicate ReadSoFar(flag: bool, x: seq<Piece>, v: seq<Piece>, base: Addr, lo: nat, hi: nat, end: nat, k: nat,
      cloned: bool) {
    && lo <= hi <= end && (hi < end ==> FirstAfter(v, hi, k))
    && (if flag then Faithful(x, v, base, lo, hi) else Plain(x, v, lo, hi))
    && Divided(flag, x, v) && (x != [] && hi < end ==> Edge(flag, v, hi))
    && (cloned <==> flag && HasHole(v, lo, hi))
  }

  lemma Reached(flag: bool, x: seq<Piece>, v: seq<Piece>, base: Addr, lo: nat, hi: nat, end: nat, k: nat, cloned: bool)
    requires ReadSoFar(flag, x, v, base, lo, hi, end, k, cloned)
    ensures x != [] ==> End(x[|x| - 1]) == hi
  {
    hide Divided, Edge;
  }

  lemma EdgesOf(flag: bool, v: seq<Piece>, k: nat)
    requires k < |v|
    ensures Edge(flag, v, End(v[k])) && (flag ==> Edge(flag, v, v[k].offF))
  {
  }

  lemma DividedSoFar(flag: bool, x: seq<Piece>, v: seq<Piece>, base: Addr, lo: nat, hi: nat, end: nat, k: nat,
      cloned: bool)
    requires ReadSoFar(flag, x, v, base, lo, hi, end, k, cloned)
    ensures Divided(flag, x, v)
  {
    hide Divided;
  }

  lemma ReadNothing(flag: bool, v: seq<Piece>, base: Addr, lo: nat, end: nat, k: nat)
    requires lo < end && FirstAfter(v, lo, k)
    ensures ReadSoFar(flag, [], v, base, lo, lo, end, k, false)
  {
  }

  /** A hole was emitted up to n. */
  lemma ReadHole(x: seq<Piece>, v: seq<Piece>, base: Addr, lo: nat, hi: nat, end: nat, k: nat, cloned: bool, n: nat)
    requires ReadSoFar(true, x, v, base, lo, hi, end, k, cloned) && Ordered(v) && k <= |v|
    requires hi < n <= end && n == (if k < |v| && v[k].offF < end then v[k].offF else end)
    ensures ReadSoFar(true, x + [Piece(base, hi, hi, n - hi)], v, base, lo, n, end, k, true)
  {
    hide Look, Faithful, Divided, Edge;
    Reached(true, x, v, base, lo, hi, end, k, cloned);
    NoEdges(true, v, k, hi, n);
    DividedMore(true, x, v, Piece(base, hi, hi, n - hi));
    if k < |v| { EdgesOf(true, v, k); }
    HoleBefore(v, hi, k, n);
    HoleStep(x, v, base, lo, hi, n);
    assert Look(v, hi).None?;
    if k < |v| { NextPiece(v, hi, k); }
  }

  /** The k-th extent was emitted up to n. */
  lemma ReadExtent(flag: bool, x: seq<Piece>, v: seq<Piece>, base: Addr, lo: nat, hi: nat, end: nat, k: nat,
      cloned: bool,
      n: nat, offDo: nat)
    requires ReadSoFar(flag, x, v, base, lo, hi, end, k, cloned) && Ordered(v) && k < |v|
    requires hi < end && v[k].offF < end && (flag ==> v[k].offF <= hi)
    requires n == if End(v[k]) < end then End(v[k]) else end
    requires flag ==> offDo == v[k].offDo + (hi - v[k].offF)
    requires !flag ==> (offDo - (v[k].offDo + (hi - v[k].offF))) % W == 0
    ensures hi < n && ReadSoFar(flag, x + [Piece(v[k].addr, hi, offDo, n - hi)], v, base, lo, n, end, k + 1, cloned)
  {
    hide Look, Faithful, Plain, Sorted, Positive, Divided, Edge;
    Reached(flag, x, v, base, lo, hi, end, k, cloned);
    NoEdges(flag, v, k, hi, n);
    DividedMore(flag, x, v, Piece(v[k].addr, hi, offDo, n - hi));
    EdgesOf(flag, v, k);
    NextPiece(v, hi, k);
    if flag {
      ExtentStep(x, v, base, lo, hi, k, n);
      forall b | hi <= b < n ensures Look(v, b).Some? { LookAt(v, k, b); }
    } else {
      PlainStep(x, v, lo, hi, k, n, offDo);
    }
  }

  /** The loop ended: at `end`, or before the next extent. */
  lemma ReadEnds(x: seq<Piece>, v: seq<Piece>, base: Addr, lo: nat, hi: nat, end: nat, k: nat, cloned: bool)
    requires ReadSoFar(false, x, v, base, lo, hi, end, k, cloned) && Ordered(v)
    requires hi < end ==> k == |v| || end <= v[k].offF
    ensures !cloned && ReadsPlain(x, v, lo, end)
  {
    hide Look, Plain;
    if hi < end { HoleBefore(v, hi, k, end); }
    assert NoneMapped(v, hi, end);
  }

  /** size_t subtraction. */
  function Minus(a: nat, b: nat): nat {
    if a >= b then a - b else (a - b) % W
  }

  lemma Wraps(offDo: nat, a: nat, b: nat)
    ensures ((offDo + Minus(a, b)) % W - (offDo + (a - b))) % W == 0
  {
  }

  lemma PlacedNone(t: nat)
    ensures Placed([], t) == []
  {
  }

  lemma PlacedMore(out: seq<Entry>, e: Entry, t: nat)
    ensures Placed(out + [e], t) == Placed(out, t) + [Piece(e.addr, t + e.offset, e.offDo, e.length)]
  {
  }

  lemma AtPosition(flag: bool, x: seq<Piece>, v: seq<Piece>, base: Addr, lo: nat, hi: nat, end: nat, k: nat,
      cloned: bool)
    requires ReadSoFar(flag, x, v, base, lo, hi, end, k, cloned)
    ensures lo <= hi <= end && (hi < end && k < |v| ==> hi < End(v[k]))
  {
  }

  /** One round of pado_read's loop with `cur` in the range: the extent is emitted. */
  method EmitExtent(flag: bool, cur: Extent, offF: nat, offset: nat, end: nat,
      ghost x: seq<Piece>, ghost v: seq<Piece>, ghost base: Addr, ghost lo: nat, ghost k: nat, ghost cloned: bool)
    returns (e: Entry)
    requires ReadSoFar(flag, x, v, base, lo, offF, end, k, cloned) && Ordered(v) && Addressable(v)
    requires k < |v| && v[k] == PieceOf(cur) && offF < end && cur.offF < end && (flag ==> cur.offF <= offF)
    ensures e.offset == offset && e.length > 0
    ensures
      ReadSoFar(flag, x + [Piece(e.addr, offF, e.offDo, e.length)], v, base, lo, offF + e.length, end, k + 1, cloned)
  {
    hide ReadSoFar, Ordered, FirstAfter, Tiles;
    AtPosition(flag, x, v, base, lo, offF, end, k, cloned);
    var diff := Minus(offF, cur.offF);
    Wraps(cur.offDo, offF, cur.offF);
    var n := if cur.offF + cur.length < end then cur.offF + cur.length else end;
    e := Entry(cur.dobj.addr, offset, (cur.offDo + diff) % W, n - offF);
    ReadExtent(flag, x, v, base, lo, offF, end, k, cloned, n, e.offDo);
  }

  /** The list sent for [start, end): a clone source's says of each byte where it lives, the
      base object for a hole; a simple read's agrees on every mapped byte up to the last. */
  ghost predicate Emitted(out: seq<Entry>, v: seq<Piece>, base: Addr, flag: bool, start: nat, end: nat) {
    if start >= end then out == []
    else if flag then Faithful(Placed(out, start), v, base, start, end) && Divided(true, Placed(out, start), v)
    else ReadsPlain(Placed(out, 0), v, start, end) && Divided(false, Placed(out, 0), v)
  }

  lemma AllRead(x: seq<Piece>, v: seq<Piece>, base: Addr, lo: nat, hi: nat, end: nat, k: nat, cloned: bool)
    requires ReadSoFar(true, x, v, base, lo, hi, end, k, cloned) && end <= hi
    ensures hi == end && Faithful(x, v, base, lo, end) && (cloned <==> HasHole(v, lo, end))
  {
    hide Faithful, HasHole;
  }

  /** The loop has ended. */
  lemma ReadOut(flag: bool, x: seq<Piece>, v: seq<Piece>, base: Addr, lo: nat, hi: nat, end: nat, k: nat, cloned: bool)
    requires ReadSoFar(flag, x, v, base, lo, hi, end, k, cloned) && Ordered(v)
    requires hi < end ==> !flag && (k == |v| || end <= v[k].offF)
    ensures Divided(flag, x, v)
    ensures if flag then Faithful(x, v, base, lo, end) else ReadsPlain(x, v, lo, end)
    ensures cloned <==> flag && HasHole(v, lo, end)
  {
    hide ReadSoFar, Faithful, ReadsPlain, HasHole, Ordered, Divided;
    DividedSoFar(flag, x, v, base, lo, hi, end, k, cloned);
    if flag {
      AllRead(x, v, base, lo, hi, end, k, cloned);
    } else {
      ReadEnds(x, v, base, lo, hi, end, k, cloned);
    }
  }

  /** The loop of pado_read, from the first extent that ends after `start`. */
  method ReadLayout(inode: Inode, bino: nat, flag: bool, start: nat, end: nat, first: Extent?, ghost k0: nat)
    returns (out: seq<Entry>, baseCloned: bool)
    requires Mid(inode, inode.exts, []) && Ordered(Pieces(inode.order)) && Addressable(Pieces(inode.order))
    requires start < end && FirstAfter(Pieces(inode.order), start, k0) && first == ElemOrNull(inode.order, k0)
    requires k0 <= |inode.order|
    ensures Emitted(out, Pieces(inode.order), Addr(0, bino), flag, start, end)
    ensures baseCloned <==> flag && HasHole(Pieces(inode.order), start, end)
  {
    hide Mid, MidBut, TreeOk, Pieces, Ordered, Addressable, Faithful, ReadsPlain, FirstAfter, HasHole, ReadSoFar;
    hide Look, Placed;
    ghost var v, base := Pieces(inode.order), Addr(0, bino);
    out := [];
    var cur := first;
    ghost var k: nat := k0;
    var offset := if flag then 0 else start;
    ghost var d := if flag then start else 0;
    var offF: nat := start;
    baseCloned := false;
    PlacedNone(d);
    ReadNothing(flag, v, base, start, end, k);
    while offF < end
      invariant ReadSoFar(flag, Placed(out, d), v, base, start, offF, end, k, baseCloned)
      invariant (offF < end ==> cur == ElemOrNull(inode.order, k)) && d + offset == offF && k <= |v|
      decreases end - offF
    {
      var nextOff := if cur != null && cur.offF < end then cur.offF else end;
      assert k < |v| ==> cur != null && v[k] == PieceOf(cur);
      var e;
      if flag && offF < nextOff {
        ReadHole(Placed(out, d), v, base, start, offF, end, k, baseCloned, nextOff);
        e := Entry(Addr(0, bino), offset, offF, nextOff - offF);
        baseCloned := true;
      } else if cur != null && cur.offF < end {
        e := EmitExtent(flag, cur, offF, offset, end, Placed(out, d), v, base, start, k, baseCloned);
        Neighbours(inode, inode.exts, [], k);
        cur, k := cur.next, k + 1;
      } else {
        break;
      }
      PlacedMore(out, e, d);
      out := out + [e];
      offF, offset := offF + e.length, offset + e.length;
    }
    ReadOut(flag, Placed(out, d), v, base, start, offF, end, k, baseCloned);
  }

  /** pado_read: the list of where the bytes of [start, end) live. */
  method PadoRead(inode: Inode, bino: nat, flag: bool, start: nat, end0: nat)
    returns (out: seq<Entry>, ret: ReadReply)
    requires Valid(inode) && Addressable(Pieces(inode.order))
    ensures var v, end := Pieces(inode.order), if end0 < inode.size then end0 else inode.size;
      && Emitted(out, v, Addr(0, bino), flag, start, end)
      && ret == if start >= end then InvalidRange else if flag && HasHole(v, start, end) then BaseCloned else ReadDone
  {
    hide Mid, MidBut, TreeOk, Pieces, Ordered, Addressable, Faithful, ReadsPlain, FirstAfter, HasHole, ReadSoFar;
    var end := if end0 < inode.size then end0 else inode.size;
    if start >= end { return [], InvalidRange; }
    MidTree(inode, inode.exts, []);
    OrderedSorted(Pieces(inode.order));
    var cur: Extent?;
    ghost var k: nat;
    ghost var rounds;
    cur, k, rounds := FindStartExtent(inode, start, inode.exts);
    var baseCloned;
    out, baseCloned := ReadLayout(inode, bino, flag, start, end, cur, k);
    ret := if baseCloned then BaseCloned else ReadDone;
  }
}
