/** The operations on one file: pado_write, pado_truncate, pado_clone and
    remove_dobject of incont.c, as transformations of the simple view. */
module Files {
  import opened Sequences
  import opened Extents
  import opened Trees
  import opened Edits
  import opened Rebalancing
  import opened RefLists
  import opened Layouts
  import opened ByteMap
  import opened Rewrites
  import opened Replacing
  import opened FileSpec

  /** What holds of an inode between requests. */
  ghost predicate Valid(inode: Inode)
    reads inode`shape, inode`order, inode`flayout, inode`exts, inode`dobjs, inode`numExts, inode`doMap
    reads inode.exts, inode.dobjs, inode.order
  {
    Mid(inode, inode.exts, []) && Ordered(Pieces(inode.order))
  }

  /** What holds of an inode whose layout may have empty extents. */
  ghost predicate WellLinked(inode: Inode)
    reads inode`shape, inode`order, inode`flayout, inode`exts, inode`dobjs, inode`numExts, inode`doMap
    reads inode.exts, inode.dobjs, inode.order
  {
    Mid(inode, inode.exts, []) && Sorted(Pieces(inode.order))
  }

  lemma ValidLinked(inode: Inode)
    requires Valid(inode)
    ensures WellLinked(inode)
  {
    hide Mid, Pieces;
  }

  ghost function FileOf(inode: Inode): File
    reads inode`size, inode`order, inode.order`offF, inode.order`offDo, inode.order`length
  {
    File(inode.size, BytesOf(Pieces(inode.order)))
  }

  /** An edit of the layout touches neither the references nor the flags. */
  twostate predicate LifeKept(inode: Inode)
    reads inode`refcount, inode`shared, inode`deleted, inode`dlocked
  {
    && inode.refcount == old(inode.refcount) && inode.shared == old(inode.shared)
    && inode.deleted == old(inode.deleted) && inode.dlocked == old(inode.dlocked)
  }

  // ---- the number of extents

  lemma WiredNoDup(inode: Inode, t: Tree)
    requires Wired(inode, t)
    ensures NoDup(Inorder(t))
  {
    InorderNoDup(t);
  }

  lemma TreeSize(inode: Inode)
    requires Mid(inode, inode.exts, [])
    ensures inode.numExts == |inode.order|
  {
    hide RefListOk, Pieces, Ordered, Elems, Inorder, Threaded, DepthsOk, NoDup;
    WiredNoDup(inode, inode.shape);
    CountDistinct(inode.order);
    InorderElems(inode.shape);
  }

  // ---- objects

  lemma EmptyList(d: Dobject, es: set<Extent>)
    requires d.refs == null && d.numRefs == 0 && d.refSeq == []
    ensures RefListOk(d, es)
  {
  }

  /** A new object without extents enters do_map. */
  method NewDobject(inode: Inode, addr: Addr) returns (d: Dobject)
    requires RefsOk(inode) && MapOk(inode, null) && Occupied(inode, null) && addr !in inode.doMap
    modifies inode`doMap, inode`dobjs
    ensures fresh(d) && d.addr == addr && d.inode == inode && inode.dobjs == old(inode.dobjs) + {d}
    ensures RefsOk(inode) && MapOk(inode, null) && Occupied(inode, d) && inode.doMap == old(inode.doMap)[addr := d]
  {
    hide RefListOk;
    d := new Dobject(addr, inode);
    EmptyList(d, inode.exts);
    inode.doMap := inode.doMap[addr := d];
    inode.dobjs := inode.dobjs + {d};
  }

  lemma KnownObject(inode: Inode, d: Dobject)
    requires RefsOk(inode) && d in inode.dobjs
    ensures d.inode == inode
  {
  }

  /** acquire_dobject: the object of that address; a new one if there is none and flag > 0. */
  method AcquireDobject(host: nat, loid: nat, inode: Inode, flag: nat, ghost es: set<Extent>, ghost A: seq<Extent>)
    returns (res: Dobject?)
    requires Mid(inode, es, A)
    modifies inode`doMap, inode`dobjs
    ensures res == null <==> flag == 0 && Addr(host, loid) !in old(inode.doMap)
    ensures res == null || Addr(host, loid) in old(inode.doMap) ==> Mid(inode, es, A) && inode.dobjs == old(inode.dobjs)
    ensures res != null ==>
      && MidBut(inode, es, A, res) && res.addr == Addr(host, loid)
      && res.inode == inode && res in inode.dobjs && inode.doMap == old(inode.doMap)[res.addr := res]
      && inode.dobjs == old(inode.dobjs) + {res}
    ensures fresh(inode.dobjs - old(inode.dobjs))
  {
    hide TreeOk, RefsOk, Pending, SetOf;
    var addr := Addr(host, loid);
    res := if addr in inode.doMap then inode.doMap[addr] else null;
    if res == null && flag > 0 {
      res := NewDobject(inode, addr);
    } else if res != null {
      KnownObject(inode, res);
    }
  }

  // ---- write

  lemma NonePending(inode: Inode, es: set<Extent>)
    requires Mid(inode, es, [])
    ensures es == inode.exts
  {
  }

  lemma SettlesWithout(v: seq<Piece>, w: seq<Piece>, end: int)
    ensures Settles(None, v, w, end)
  {
  }

  lemma OnePiece(e: Extent)
    requires e.length > 0
    ensures Pieces([e]) == [PieceOf(e)] && Ordered([PieceOf(e)])
    ensures Listed([PieceOf(e)], e.offF, e.offF + e.length, None)
    ensures Pieces([]) == []
  {
  }

  lemma OneRewritten(p: Piece)
    ensures Rewritten([], [p], p.offF, End(p)) == [p] && SeamsApart([p], [p])
  {
  }

  lemma WrittenFirst(p: Piece)
    ensures Overwrites([p], [], [p], p.offF, End(p))
  {
    forall b: int ensures Look([p], b) == if p.offF <= b < End(p) then Look([p], b) else None {
      LookHead(p, [], b);
      assert [p] + [] == [p];
    }
  }

  lemma OverwriteBytes(x: seq<Piece>, v: seq<Piece>, w: seq<Piece>, start: int, end: int)
    requires Overwrites(x, v, w, start, end)
    ensures BytesOf(x) == Over(BytesOf(v), w, start, end)
  {
  }

  /** One new extent, still pending, overwrites its range. */
  method PutExtent(inode: Inode, newExt: Extent, ghost es0: set<Extent>)
    requires Mid(inode, es0, [newExt]) && Ordered(Pieces(inode.order)) && newExt.length > 0
    modifies inode`flayout, inode`shape, inode`order, inode`exts, inode`numExts, inode`doMap, inode`dobjs
    modifies inode.dobjs`refs, inode.dobjs`numRefs, inode.dobjs`refSeq
    modifies inode.exts`left, inode.exts`right, inode.exts`parent, inode.exts`pivot, inode.exts`depth
    modifies inode.exts`prev, inode.exts`next, inode.exts`prevRef, inode.exts`nextRef
    modifies inode.exts`offF, inode.exts`offDo, inode.exts`length
    ensures inode.dobjs <= old(inode.dobjs) && fresh(inode.exts - old(inode.exts)) && Valid(inode)
    ensures BytesOf(Pieces(inode.order)) == Over(old(BytesOf(Pieces(inode.order))), [old(PieceOf(newExt))],
      old(newExt.offF), old(newExt.offF + newExt.length))
    ensures var v, p := old(Pieces(inode.order)), old(PieceOf(newExt));
      Pieces(inode.order) == Rewritten(v, [p], p.offF, End(p)) && SeamsApart(Pieces(inode.order), [p])
  {
    hide MidBut, Mid, TreeOk, Ordered, Sorted, Overwrites, Listed, Settles, Pieces, BytesOf, Over;
    hide Rewritten, SeamsApart;
    OnePiece(newExt);
    MidTree(inode, es0, [newExt]);
    ghost var es, p, v := {newExt}, PieceOf(newExt), Pieces(inode.order);
    if inode.flayout != null {
      var passed;
      passed, es := Replace(inode, newExt, newExt, newExt.offF, newExt.offF + newExt.length, es0, [newExt], None);
      assert passed;
      SettlesWithout(v, [p], p.offF + p.length);
    } else {
      NothingPlaced(inode, es0, [newExt]);
      assert v == [];
      PlaceRoot(inode, newExt, [newExt]);
      OnePiece(newExt);
      assert [newExt][1..] == [];
      WrittenFirst(p);
      OneRewritten(p);
    }
    NonePending(inode, es);
    OverwriteBytes(Pieces(inode.order), v, [p], p.offF, End(p));
  }

  /** create_extent and replace for one write. */
  method StoreExtent(inode: Inode, dobj: Dobject, offF: nat, offDo: nat, len: nat)
    requires MidBut(inode, inode.exts, [], dobj) && Ordered(Pieces(inode.order)) && dobj in inode.dobjs
    requires dobj.inode == inode && len > 0
    modifies inode`flayout, inode`shape, inode`order, inode`exts, inode`numExts, inode`doMap, inode`dobjs
    modifies inode.dobjs`refs, inode.dobjs`numRefs, inode.dobjs`refSeq
    modifies inode.exts`left, inode.exts`right, inode.exts`parent, inode.exts`pivot, inode.exts`depth
    modifies inode.exts`prev, inode.exts`next, inode.exts`prevRef, inode.exts`nextRef
    modifies inode.exts`offF, inode.exts`offDo, inode.exts`length
    ensures inode.dobjs <= old(inode.dobjs) && fresh(inode.exts - old(inode.exts)) && Valid(inode)
    ensures BytesOf(Pieces(inode.order))
      == Over(old(BytesOf(Pieces(inode.order))), [Piece(dobj.addr, offF, offDo, len)], offF, offF + len)
    ensures var v, p := old(Pieces(inode.order)), Piece(dobj.addr, offF, offDo, len);
      Pieces(inode.order) == Rewritten(v, [p], offF, offF + len) && SeamsApart(Pieces(inode.order), [p])
  {
    hide Valid, MidBut, Mid, TreeOk, Pieces, Ordered, BytesOf, Over, Rewritten, SeamsApart;
    ghost var v := Pieces(inode.order);
    var newExt := AddPending(inode, dobj, offF, offDo, len, null, inode.exts, []);
    assert [newExt] + [] == [newExt];
    assert Pieces(inode.order) == v;
    PutExtent(inode, newExt, old(inode.exts));
  }

  /** pado_write: the range now lives in dobj from offDo on. */
  method PadoWrite(dobj: Dobject, offF: nat, offDo: nat, len: nat)
    requires var inode := dobj.inode;
      MidBut(inode, inode.exts, [], dobj) && Ordered(Pieces(inode.order)) && dobj in inode.dobjs
    requires len > 0
    modifies dobj.inode, dobj.inode.exts, dobj.inode.dobjs
    ensures Valid(dobj.inode)
    ensures var n, m := dobj.inode.size, old(dobj.inode.size); n >= m && n >= offF + len && (n == m || n == offF + len)
    ensures FileOf(dobj.inode) == Apply(old(FileOf(dobj.inode)), Write(dobj.addr, offF, offDo, len))
    ensures var inode, v, p := dobj.inode, old(Pieces(dobj.inode.order)), Piece(dobj.addr, offF, offDo, len);
      && Pieces(inode.order) == Rewritten(v, [p], offF, offF + len) && SeamsApart(Pieces(inode.order), [p])
      && inode.numExts == |Pieces(inode.order)|
    ensures dobj.inode.version == old(dobj.inode.version) + 1 && LifeKept(dobj.inode)
    ensures fresh(dobj.inode.exts - old(dobj.inode.exts)) && dobj.inode.dobjs <= old(dobj.inode.dobjs)
  {
    hide Valid, MidBut, Mid, TreeOk, Pieces, Ordered, BytesOf, Over, Rewritten, SeamsApart;
    var inode := dobj.inode;
    inode.size := if inode.size > offF + len then inode.size else offF + len;
    StoreExtent(inode, dobj, offF, offDo, len);
    ValidParts(inode);
    TreeSize(inode);
    assert inode.refcount == old(inode.refcount) && inode.shared == old(inode.shared);
    assert inode.deleted == old(inode.deleted) && inode.dlocked == old(inode.dlocked);
    inode.version := inode.version + 1;
  }

  // ---- truncate

  lemma NoPieces(lo: int, hi: int)
    ensures Pieces([]) == [] && Listed([], lo, hi, None)
  {
  }

  lemma OverwriteNothing(v: seq<Piece>, start: int, end: int)
    requires end <= start
    ensures Overwrites(v, v, [], start, end)
  {
  }

  /** The range, if any, becomes a hole. */
  method CutRange(inode: Inode, start: nat, end: nat)
    requires Valid(inode)
    modifies inode`flayout, inode`shape, inode`order, inode`exts, inode`numExts, inode`doMap, inode`dobjs
    modifies inode.dobjs`refs, inode.dobjs`numRefs, inode.dobjs`refSeq
    modifies inode.exts`left, inode.exts`right, inode.exts`parent, inode.exts`pivot, inode.exts`depth
    modifies inode.exts`prev, inode.exts`next, inode.exts`prevRef, inode.exts`nextRef
    modifies inode.exts`offF, inode.exts`offDo, inode.exts`length
    ensures inode.dobjs <= old(inode.dobjs) && fresh(inode.exts - old(inode.exts)) && Valid(inode)
    ensures Pieces(inode.order)
      == if start < end then Rewritten(old(Pieces(inode.order)), [], start, end) else old(Pieces(inode.order))
    ensures BytesOf(Pieces(inode.order)) == Over(old(BytesOf(Pieces(inode.order))), [], start, end)
  {
    hide MidBut, Mid, TreeOk, Pieces, Ordered, Sorted, Overwrites, BytesOf, Over, Look, Listed, Settles, Rewritten;
    ghost var v := Pieces(inode.order);
    if start < end {
      NoPieces(start, end);
      var passed;
      ghost var es;
      passed, es := Replace(inode, null, null, start, end, inode.exts, [], None);
      assert passed;
      SettlesWithout(v, [], end);
      NonePending(inode, es);
    } else {
      OverwriteNothing(v, start, end);
    }
    OverwriteBytes(Pieces(inode.order), v, [], start, end);
  }

  /** pado_truncate. */
  method PadoTruncate(inode: Inode, newsize: nat)
    requires Valid(inode)
    modifies inode, inode.exts, inode.dobjs
    ensures inode.size == newsize
    ensures Valid(inode) && FileOf(inode) == Apply(old(FileOf(inode)), Truncate(newsize))
    ensures Pieces(inode.order) == if newsize < old(inode.size)
      then Rewritten(old(Pieces(inode.order)), [], newsize, old(inode.size)) else old(Pieces(inode.order))
    ensures inode.version == old(inode.version) + 1 && LifeKept(inode)
    ensures fresh(inode.exts - old(inode.exts)) && inode.dobjs <= old(inode.dobjs)
  {
    hide Valid, Pieces, BytesOf, Over, Rewritten;
    var oldsize := inode.size;
    inode.size := newsize;
    CutRange(inode, newsize, oldsize);
    assert inode.refcount == old(inode.refcount) && inode.shared == old(inode.shared);
    assert inode.deleted == old(inode.deleted) && inode.dlocked == old(inode.dlocked);
    inode.version := inode.version + 1;
  }

  // ---- clone

  lemma TailLive(inode: Inode, es: set<Extent>, A: seq<Extent>, bare: Dobject)
    requires MidBut(inode, es, A, bare)
    ensures A != [] ==> A[|A| - 1] in inode.exts
  {
  }

  /** One listed extent joins the end of the pending chain. */
  method AddListed(tinode: Inode, addr: Addr, offF: nat, offDo: nat, length: nat, tail: Extent?,
      ghost es: set<Extent>, ghost A: seq<Extent>)
    returns (tmp: Extent)
    requires Mid(tinode, es, A) && tail == ElemOrNull(A, |A| - 1)
    modifies tinode`doMap, tinode`dobjs, tinode`exts, tinode`numExts
    modifies tinode.dobjs`refs, tinode.dobjs`numRefs, tinode.dobjs`refSeq, tinode.exts`prevRef, tinode.exts`next
    ensures fresh(tmp) && tinode.exts == old(tinode.exts) + {tmp} && fresh(tinode.dobjs - old(tinode.dobjs))
    ensures Mid(tinode, es, A + [tmp]) && Pieces(A + [tmp]) == old(Pieces(A)) + [Piece(addr, offF, offDo, length)]
  {
    hide Mid, MidBut, TreeOk, Pieces;
    var dobj := AcquireDobject(addr.host, addr.loid, tinode, 2, es, A);
    TailLive(tinode, es, A, dobj);
    tmp := AppendPending(tinode, dobj, offF, offDo, length, tail, es, A);
    PiecesConcat(A, [tmp]);
    assert Pieces([tmp]) == [PieceOf(tmp)];
  }

  /** One round of the loop of pado_clone. */
  method TakeEntry(tinode: Inode, input: seq<Entry>, n: nat, start: nat, end: nat, alts0: Extent?, tail0: Extent?,
      ghost es: set<Extent>, ghost A0: seq<Extent>)
    returns (alts: Extent?, tail: Extent?, ghost A: seq<Extent>)
    requires Mid(tinode, es, A0) && alts0 == ElemOrNull(A0, 0) && tail0 == ElemOrNull(A0, |A0| - 1)
    requires n < |input| && Pieces(A0) == Clipped(input[..n], start, end)
    modifies tinode`doMap, tinode`dobjs, tinode`exts, tinode`numExts
    modifies tinode.dobjs`refs, tinode.dobjs`numRefs, tinode.dobjs`refSeq, tinode.exts`prevRef, tinode.exts`next
    ensures old(tinode.exts) <= tinode.exts && fresh(tinode.exts - old(tinode.exts))
    ensures fresh(tinode.dobjs - old(tinode.dobjs))
    ensures Mid(tinode, es, A) && alts == ElemOrNull(A, 0) && tail == ElemOrNull(A, |A| - 1)
    ensures Pieces(A) == Clipped(input[..n + 1], start, end)
  {
    hide Mid, MidBut, TreeOk, Pieces, Clipped;
    alts, tail, A := alts0, tail0, A0;
    ClippedStep(input, n, start, end);
    var e := input[n];
    var offF := start + e.offset;
    if offF <= end {
      var length := if offF + e.length > end then end - offF else e.length;
      tail := AddListed(tinode, e.addr, offF, e.offDo, length, tail, es, A);
      if alts == null { alts := tail; }
      A := A + [tail];
    }
  }

  lemma NoneListed(input: seq<Entry>)
    ensures Pieces([]) == [] && input[..0] + UpToMark(input[0..]) == UpToMark(input)
    ensures ElemOrNull([], 0) == ElemOrNull([], -1) == null
  {
    assert input[0..] == input;
  }

  /** The loop of pado_clone: the listed extents, clipped at `end`, become pending. */
  method ReadList(tinode: Inode, input: seq<Entry>, start: nat, end: nat)
    returns (alts: Extent?, tail: Extent?, n: nat, ghost A: seq<Extent>)
    requires Mid(tinode, tinode.exts, []) && start <= end
    requires exists i :: 0 <= i < |input| && input[i].addr == END_MARK
    modifies tinode`doMap, tinode`dobjs, tinode`exts, tinode`numExts
    modifies tinode.dobjs`refs, tinode.dobjs`numRefs, tinode.dobjs`refSeq, tinode.exts`prevRef, tinode.exts`next
    ensures old(tinode.exts) <= tinode.exts && fresh(tinode.exts - old(tinode.exts))
    ensures fresh(tinode.dobjs - old(tinode.dobjs))
    ensures Mid(tinode, old(tinode.exts), A) && alts == ElemOrNull(A, 0) && tail == ElemOrNull(A, |A| - 1)
    ensures n <= |input| && input[..n] == UpToMark(input) && Pieces(A) == Clipped(input[..n], start, end)
  {
    hide Mid, MidBut, TreeOk, Pieces, UpToMark, Clipped, ElemOrNull;
    ghost var es := tinode.exts;
    alts, tail, n, A := null, null, 0, [];
    ClippedNone(input, start, end);
    NoneListed(input);
    while true
      invariant n < |input| && input[..n] + UpToMark(input[n..]) == UpToMark(input)
      invariant exists i :: n <= i < |input| && input[i].addr == END_MARK
      invariant es <= tinode.exts && fresh(tinode.exts - es) && fresh(tinode.dobjs - old(tinode.dobjs))
      invariant Mid(tinode, es, A) && alts == ElemOrNull(A, 0) && tail == ElemOrNull(A, |A| - 1)
      invariant Pieces(A) == Clipped(input[..n], start, end)
      decreases |input| - n
    {
      UpToMarkStep(input, n);
      if input[n].addr == END_MARK { break; }
      alts, tail, A := TakeEntry(tinode, input, n, start, end, alts, tail, es, A);
      n := n + 1;
    }
  }

  lemma CloneBytes(x: seq<Piece>, v: seq<Piece>, list: seq<Entry>, start: nat, end: nat)
    requires Overwrites(x, v, Clipped(list, start, end), start, end) && Ordered(Placed(list, start))
    ensures BytesOf(x) == Over(BytesOf(v), Placed(list, start), start, end)
  {
    hide Look, Ordered, Clipped;
    forall b: int ensures Look(x, b) == if start <= b < end then Look(Placed(list, start), b) else Look(v, b) {
      if start <= b < end { ClipKeeps(list, start, end, b); }
    }
  }

  /** The pending extents of a list overwrite its range. */
  method PutList(inode: Inode, alts: Extent?, tail: Extent?, start: nat, end: nat,
      ghost es0: set<Extent>, ghost A: seq<Extent>, ghost list: seq<Entry>)
    returns (passed: bool)
    requires Mid(inode, es0, A) && alts == ElemOrNull(A, 0) && tail == ElemOrNull(A, |A| - 1)
    requires Ordered(Pieces(inode.order)) && Pieces(A) == Clipped(list, start, end)
    requires start < end && Ordered(Placed(list, start))
    modifies inode`flayout, inode`shape, inode`order, inode`exts, inode`numExts, inode`doMap, inode`dobjs
    modifies inode.dobjs`refs, inode.dobjs`numRefs, inode.dobjs`refSeq
    modifies inode.exts`left, inode.exts`right, inode.exts`parent, inode.exts`pivot, inode.exts`depth
    modifies inode.exts`prev, inode.exts`next, inode.exts`prevRef, inode.exts`nextRef
    modifies inode.exts`offF, inode.exts`offDo, inode.exts`length
    ensures inode.dobjs <= old(inode.dobjs) && fresh(inode.exts - old(inode.exts)) && WellLinked(inode)
    ensures BytesOf(Pieces(inode.order)) == Over(old(BytesOf(Pieces(inode.order))), Placed(list, start), start, end)
    ensures Valid(inode) <==> CloneFits(old(FileOf(inode)), list, start, end)
    ensures Pieces(inode.order) == Rewritten(old(Pieces(inode.order)), Clipped(list, start, end), start, end)
    ensures passed <==> CloneStands(old(Pieces(inode.order)), list, start, end)
  {
    hide MidBut, Mid, TreeOk, Ordered, Sorted, Overwrites, Listed, Settles, Pieces, BytesOf, Over, Clipped, Placed;
    hide CloneFits, CloneStands, Stands, Rewritten;
    ghost var v, x, f := Pieces(inode.order), Clipped(list, start, end), FileOf(inode);
    ClipListed(list, start, end);
    ClipSettles(f, v, list, start, end);
    ClipStands(v, list, start, end);
    ghost var es;
    passed, es := Replace(inode, alts, tail, start, end, es0, A, EmptyEnd(x));
    NonePending(inode, es);
    CloneBytes(Pieces(inode.order), v, list, start, end);
  }

  lemma ValidParts(inode: Inode)
    requires Valid(inode)
    ensures Mid(inode, inode.exts, []) && Ordered(Pieces(inode.order))
  {
  }

  /** The list is read and its extents overwrite the range. */
  method StoreList(tinode: Inode, input: seq<Entry>, start: nat, end: nat) returns (passed: bool, n: nat)
    requires Valid(tinode) && start < end && Ordered(Placed(UpToMark(input), start))
    requires exists i :: 0 <= i < |input| && input[i].addr == END_MARK
    modifies tinode`flayout, tinode`shape, tinode`order, tinode`exts, tinode`numExts, tinode`doMap, tinode`dobjs
    modifies tinode.dobjs`refs, tinode.dobjs`numRefs, tinode.dobjs`refSeq
    modifies tinode.exts`left, tinode.exts`right, tinode.exts`parent, tinode.exts`pivot, tinode.exts`depth
    modifies tinode.exts`prev, tinode.exts`next, tinode.exts`prevRef, tinode.exts`nextRef
    modifies tinode.exts`offF, tinode.exts`offDo, tinode.exts`length
    ensures WellLinked(tinode) && n <= |input| && input[..n] == UpToMark(input)
    ensures BytesOf(Pieces(tinode.order))
      == Over(old(BytesOf(Pieces(tinode.order))), Placed(UpToMark(input), start), start, end)
    ensures Valid(tinode) <==> CloneFits(old(FileOf(tinode)), UpToMark(input), start, end)
    ensures Pieces(tinode.order)
      == Rewritten(old(Pieces(tinode.order)), Clipped(UpToMark(input), start, end), start, end)
    ensures passed <==> CloneStands(old(Pieces(tinode.order)), UpToMark(input), start, end)
    ensures fresh(tinode.exts - old(tinode.exts)) && fresh(tinode.dobjs - old(tinode.dobjs))
  {
    hide Valid, WellLinked, Mid, MidBut, TreeOk, Pieces, UpToMark, Clipped, Ordered, BytesOf, Over, Placed, CloneFits;
    hide CloneStands, Rewritten;
    ghost var v := Pieces(tinode.order);
    ValidParts(tinode);
    var alts, tail;
    ghost var A;
    alts, tail, n, A := ReadList(tinode, input, start, end);
    assert Pieces(tinode.order) == v;
    passed := PutList(tinode, alts, tail, start, end, old(tinode.exts), A, input[..n]);
  }

  /** pado_clone: the range is overwritten by the list read from the stream; no empty extent is left
      exactly if the list fits, and all assertions on the way hold exactly if it stands. */
  method PadoClone(tinode: Inode, input: seq<Entry>, start: nat, end: nat) returns (passed: bool, n: nat)
    requires Valid(tinode) && start < end && Ordered(Placed(UpToMark(input), start))
    requires exists i :: 0 <= i < |input| && input[i].addr == END_MARK
    modifies tinode, tinode.exts, tinode.dobjs
    ensures WellLinked(tinode) && FileOf(tinode) == Apply(old(FileOf(tinode)), Clone(UpToMark(input), start, end))
    ensures var n, m := tinode.size, old(tinode.size); n >= m && n >= end && (n == m || n == end)
    ensures Valid(tinode) <==> CloneFits(old(FileOf(tinode)), UpToMark(input), start, end)
    ensures Pieces(tinode.order)
      == Rewritten(old(Pieces(tinode.order)), Clipped(UpToMark(input), start, end), start, end)
    ensures passed <==> CloneStands(old(Pieces(tinode.order)), UpToMark(input), start, end)
    ensures n <= |input| && input[..n] == UpToMark(input) && tinode.version == old(tinode.version) + 1
    ensures LifeKept(tinode)
    ensures fresh(tinode.exts - old(tinode.exts)) && fresh(tinode.dobjs - old(tinode.dobjs))
  {
    hide Valid, WellLinked, Pieces, UpToMark, BytesOf, Over, Placed, CloneFits, CloneStands, Ordered, Rewritten;
    hide Clipped;
    ghost var f := FileOf(tinode);
    passed, n := StoreList(tinode, input, start, end);
    assert FileOf(tinode) == File(f.size, Over(f.bytes, Placed(UpToMark(input), start), start, end));
    tinode.size := if tinode.size > end then tinode.size else end;
    tinode.version := tinode.version + 1;
  }

  lemma ListAtEnd(input: seq<Entry>)
    requires input == [Entry(Addr(1, 1), 0, 0, 4), Entry(Addr(2, 2), 4, 0, 2), Entry(END_MARK, 0, 0, 0)]
    ensures UpToMark(input) == input[..2] && Ordered(Placed(input[..2], 0))
    ensures !CloneFits(Blank(0), input[..2], 0, 4) && CloneStands([], input[..2], 0, 4)
  {
    hide Ordered;
    assert input == input[..2] + [input[2]];
    MarkedList(input[..2], input[2]);
    var p, q := Piece(Addr(1, 1), 0, 0, 4), Piece(Addr(2, 2), 4, 0, 2);
    assert Placed(input[..2], 0) == [p, q];
    PairOrdered(p, q);
    assert 0 + input[..2][1].offset == 4;
  }

  lemma SomeEmpty(inode: Inode)
    requires WellLinked(inode) && !Valid(inode)
    ensures exists i :: 0 <= i < |inode.order| && inode.order[i].length == 0
  {
    hide Mid, Pieces;
    var i :| 0 <= i < |inode.order| && !(Pieces(inode.order)[i].length > 0);
    assert inode.order[i].length == 0;
  }

  lemma EmptyInode(inode: Inode)
    requires inode.flayout == null && inode.numExts == 0 && inode.doMap == map[]
    requires inode.shape == Nil && inode.order == [] && inode.exts == {} && inode.dobjs == {}
    ensures Valid(inode) && FileOf(inode) == File(inode.size, BytesOf([]))
  {
    assert SetOf<Extent>([]) == {};
  }

  /** A list whose second entry starts at `end`, cloned into an empty file: every assertion on the way
      holds, and an empty extent is left. */
  method CloneAtEnd(ino: nat) returns (inode: Inode, passed: bool)
    ensures passed && WellLinked(inode) && exists i :: 0 <= i < |inode.order| && inode.order[i].length == 0
  {
    hide Mid, Pieces, BytesOf, UpToMark, Look, CloneFits, CloneStands, Ordered;
    var input := [Entry(Addr(1, 1), 0, 0, 4), Entry(Addr(2, 2), 4, 0, 2), Entry(END_MARK, 0, 0, 0)];
    inode := new Inode(ino, 0);
    EmptyInode(inode);
    BlankBytes();
    ListAtEnd(input);
    assert input[2].addr == END_MARK;
    var n;
    passed, n := PadoClone(inode, input, 0, 4);
    SomeEmpty(inode);
  }

  // ---- removing an object

  /** The pieces of other objects. */
  ghost function Others(v: seq<Piece>, a: Addr): seq<Piece> {
    if v == [] then [] else Others(v[..|v| - 1], a) + if v[|v| - 1].addr == a then [] else [v[|v| - 1]]
  }

  lemma {:induction false} OthersConcat(v: seq<Piece>, w: seq<Piece>, a: Addr)
    ensures Others(v + w, a) == Others(v, a) + Others(w, a)
  {
    if w == [] {
      assert v + w == v;
    } else {
      var n := |w| - 1;
      OthersConcat(v, w[..n], a);
      assert (v + w)[..|v + w| - 1] == v + w[..n] && (v + w)[|v + w| - 1] == w[n];
    }
  }

  lemma OthersOne(p: Piece, a: Addr)
    ensures Others([p], a) == if p.addr == a then [] else [p]
  {
    assert [p][..0] == [];
  }

  lemma OthersWithout(x: seq<Piece>, k: nat, a: Addr)
    requires k < |x| && x[k].addr == a
    ensures Others(Without(x, k), a) == Others(x, a)
  {
    hide Others;
    assert x == x[..k] + [x[k]] + x[k + 1..];
    OthersConcat(x[..k] + [x[k]], x[k + 1..], a);
    OthersConcat(x[..k], [x[k]], a);
    OthersConcat(x[..k], x[k + 1..], a);
    OthersOne(x[k], a);
    assert Others(x[..k], a) + [] == Others(x[..k], a);
  }

  lemma {:induction false} OthersAll(x: seq<Piece>, a: Addr)
    requires forall i | 0 <= i < |x| :: x[i].addr != a
    ensures Others(x, a) == x
  {
    if x != [] { OthersAll(x[..|x| - 1], a); }
  }

  /** Exactly the pieces of the object are missing. */
  lemma {:induction false} OthersIs(v: seq<Piece>, a: Addr, p: Piece)
    ensures p in Others(v, a) <==> p in v && p.addr != a
  {
    if v != [] {
      OthersIs(v[..|v| - 1], a, p);
      assert v == v[..|v| - 1] + [v[|v| - 1]];
    }
  }

  lemma {:induction false} OthersSorted(v: seq<Piece>, a: Addr)
    requires Sorted(v)
    ensures Sorted(Others(v, a))
  {
    if v != [] {
      var init, p := v[..|v| - 1], v[|v| - 1];
      OthersSorted(init, a);
      var x := Others(init, a);
      forall i | 0 <= i < |x| ensures End(x[i]) <= p.offF {
        OthersIs(init, a, x[i]);
        var j :| 0 <= j < |init| && init[j] == x[i];
        assert v[j] == x[i];
      }
    }
  }

  /** x is v without some bytes of the object `a`. */
  ghost predicate Fading(x: seq<Piece>, v: seq<Piece>, a: Addr) {
    && Ordered(x) && Others(x, a) == Others(v, a)
    && forall b: int :: Look(x, b) == Look(v, b) || (Look(x, b).None? && Look(v, b).Some? && Look(v, b).value.addr == a)
  }

  lemma WithoutPiece(x: seq<Piece>, v: seq<Piece>, a: Addr, k: nat)
    requires Fading(x, v, a) && k < |x| && x[k].addr == a
    ensures Fading(Without(x, k), v, a)
  {
    hide Others;
    OthersWithout(x, k, a);
    var y := Without(x, k);
    OrderedParts(x, k);
    OrderedParts(x, k + 1);
    OrderedConcat(x[..k], x[k + 1..], x[k].offF);
    forall b: int ensures Look(y, b) == Look(x, b) || (Look(y, b).None? && Look(x, b) == Some(LocIn(x[k], b))) {
      SplitAround(x, k);
      LookConcat(x[..k], [x[k]] + x[k + 1..], b);
      LookHead(x[k], x[k + 1..], b);
      LookConcat(x[..k], x[k + 1..], b);
      if Covers(x[k], b) {
        LookNone(x[..k], b);
        AllBeyond(x, k + 1, End(x[k]));
        LookNone(x[k + 1..], b);
      }
    }
  }

  lemma NotThere(x: seq<Piece>, a: Addr, b: int)
    requires forall i | 0 <= i < |x| :: x[i].addr != a
    ensures Look(x, b).Some? ==> Look(x, b).value.addr != a
  {
    hide Look;
    if Look(x, b).Some? { LookCovers(x, b); }
  }

  /** With no piece of the object left, exactly its bytes are gone. */
  lemma Faded(x: seq<Piece>, v: seq<Piece>, a: Addr, f: File, g: File)
    requires Fading(x, v, a) && forall i | 0 <= i < |x| :: x[i].addr != a
    requires f.bytes == BytesOf(v) && g == File(f.size, BytesOf(x))
    ensures g == Apply(f, Remove(a)) && x == Others(v, a)
  {
    hide Look, Others, Ordered;
    OthersAll(x, a);
    forall b: int ensures Look(x, b).Some? ==> Look(x, b).value.addr != a { NotThere(x, a, b); }
  }

  /** dobj has left do_map; its extents go one by one. */
  ghost predicate Emptying(inode: Inode, dobj: Dobject)
    reads inode`shape, inode`order, inode`flayout, inode`exts, inode`dobjs, inode`numExts, inode`doMap, inode.dobjs
    reads inode.exts`left, inode.exts`right, inode.exts`parent, inode.exts`pivot, inode.exts`depth
    reads inode.exts`prev, inode.exts`next, inode.exts`prevRef, inode.exts`nextRef
  {
    && TreeOk(inode, inode.exts) && RefsOk(inode) && MapOk(inode, dobj) && Occupied(inode, dobj)
    && dobj in inode.dobjs && dobj.addr !in inode.doMap
  }

  /** The first extent on the object's list, and its place. */
  lemma FirstRef(inode: Inode, dobj: Dobject)
    requires Emptying(inode, dobj)
    ensures dobj.refs == null <==> dobj.refSeq == []
    ensures var e := dobj.refs; e != null ==>
      && e in inode.exts && e.dobj == dobj
      && var k := Rank(inode.shape, e); k < |inode.order| && inode.order[k] == e
  {
    hide Elems, Inorder, Rank, Distinct, NoDup, DepthsOk, Threaded;
    assert RefListOk(dobj, inode.exts);
    if dobj.refs != null {
      assert dobj.refSeq[0] == dobj.refs;
      RankIs(inode.shape, dobj.refs);
    }
  }

  lemma PiecesWithout(s: seq<Extent>, k: nat)
    requires k < |s|
    ensures Pieces(Without(s, k)) == Without(Pieces(s), k)
  {
    hide Pieces;
    PiecesSlice(s, k);
    PiecesSlice(s, k + 1);
    PiecesConcat(s[..k], s[k + 1..]);
  }

  /** One round of remove_dobject's loop. */
  method DropRef(inode: Inode, dobj: Dobject, ghost v: seq<Piece>)
    requires Emptying(inode, dobj) && dobj.refs != null && Fading(Pieces(inode.order), v, dobj.addr)
    modifies inode`flayout, inode`shape, inode`order, inode`exts, inode`numExts, inode`doMap, inode`dobjs
    modifies inode.exts, {dobj}`refs, {dobj}`numRefs, {dobj}`refSeq
    ensures Emptying(inode, dobj) && Fading(Pieces(inode.order), v, dobj.addr)
    ensures inode.doMap == old(inode.doMap) && inode.dobjs == old(inode.dobjs) && inode.exts < old(inode.exts)
  {
    hide TreeOk, RefsOk, MapOk, RefListOk, Rank, Pieces, Fading;
    FirstRef(inode, dobj);
    ghost var k := Rank(inode.shape, dobj.refs);
    WithoutPiece(Pieces(inode.order), v, dobj.addr, k);
    PiecesWithout(inode.order, k);
    RemoveExtent(inode, dobj.refs, false, inode.exts, dobj);
  }

  /** HASH_DELETE of the object from do_map. */
  method Unmap(inode: Inode, dobj: Dobject)
    requires Mid(inode, inode.exts, []) && dobj in inode.dobjs
    modifies inode`doMap
    ensures Emptying(inode, dobj) && inode.doMap == old(inode.doMap) - {dobj.addr}
  {
    hide TreeOk, RefsOk;
    inode.doMap := inode.doMap - {dobj.addr};
  }

  lemma AllLive(inode: Inode, es: set<Extent>)
    requires TreeOk(inode, es)
    ensures forall i | 0 <= i < |inode.order| :: inode.order[i] in es
  {
  }

  lemma NoneLeft(inode: Inode, dobj: Dobject)
    requires Emptying(inode, dobj) && dobj.refSeq == []
    ensures forall e <- inode.exts :: e.dobj != dobj
    ensures forall i | 0 <= i < |inode.order| :: inode.order[i].dobj.addr != dobj.addr
  {
    hide TreeOk, RefListOk;
    AllLive(inode, inode.exts);
    forall i | 0 <= i < |inode.order| ensures inode.order[i].dobj.addr != dobj.addr {
      assert inode.order[i] in inode.exts;
    }
  }

  /** The emptied object is freed. */
  method Discard(inode: Inode, dobj: Dobject)
    requires Emptying(inode, dobj) && dobj.refs == null
    modifies inode`dobjs
    ensures Mid(inode, inode.exts, []) && inode.dobjs == old(inode.dobjs) - {dobj}
    ensures forall i | 0 <= i < |inode.order| :: inode.order[i].dobj.addr != dobj.addr
  {
    hide TreeOk, RefListOk, Rank;
    FirstRef(inode, dobj);
    NoneLeft(inode, dobj);
    inode.dobjs := inode.dobjs - {dobj};
    assert SetOf<Extent>([]) == {};
  }

  lemma NotYetFading(v: seq<Piece>, a: Addr)
    requires Ordered(v)
    ensures Fading(v, v, a)
  {
  }

  lemma FadingOrdered(x: seq<Piece>, v: seq<Piece>, a: Addr)
    requires Fading(x, v, a)
    ensures Ordered(x)
  {
  }

  /** What is left once no extent lies in the object. */
  lemma AllGone(inode: Inode, v: seq<Piece>, a: Addr, f: File)
    requires Mid(inode, inode.exts, []) && Fading(Pieces(inode.order), v, a)
    requires forall i | 0 <= i < |inode.order| :: inode.order[i].dobj.addr != a
    requires f == File(inode.size, BytesOf(v))
    ensures Valid(inode) && FileOf(inode) == Apply(f, Remove(a))
    ensures Pieces(inode.order) == Others(v, a) && inode.numExts == |Pieces(inode.order)|
  {
    hide Mid, Fading, Ordered, BytesOf, Apply, Others;
    TreeSize(inode);
    FadingOrdered(Pieces(inode.order), v, a);
    Faded(Pieces(inode.order), v, a, f, FileOf(inode));
  }

  lemma Fewer<T>(s: set<T>, t: set<T>)
    requires s < t
    ensures |s| < |t|
  {
    assert t == s + (t - s);
  }

  /** remove_dobject's loop: the object loses all its extents. */
  method DropRefs(inode: Inode, dobj: Dobject, ghost v: seq<Piece>)
    requires Emptying(inode, dobj) && Fading(Pieces(inode.order), v, dobj.addr)
    modifies inode`flayout, inode`shape, inode`order, inode`exts, inode`numExts, inode`doMap, inode`dobjs
    modifies inode.exts, {dobj}`refs, {dobj}`numRefs, {dobj}`refSeq
    ensures Emptying(inode, dobj) && Fading(Pieces(inode.order), v, dobj.addr) && dobj.refs == null
    ensures inode.doMap == old(inode.doMap) && inode.dobjs == old(inode.dobjs) && inode.exts <= old(inode.exts)
  {
    hide Emptying, Fading, Pieces;
    while dobj.refs != null
      invariant Emptying(inode, dobj) && Fading(Pieces(inode.order), v, dobj.addr)
      invariant inode.exts <= old(inode.exts) && inode.doMap == old(inode.doMap) && inode.dobjs == old(inode.dobjs)
      decreases |inode.exts|
    {
      ghost var before := inode.exts;
      DropRef(inode, dobj, v);
      Fewer(inode.exts, before);
    }
  }

  /** remove_dobject: exactly the bytes of the object become holes. */
  method RemoveDobject(dobj: Dobject)
    requires Valid(dobj.inode) && dobj in dobj.inode.dobjs
    modifies dobj.inode, dobj.inode.exts, dobj.inode.dobjs
    ensures Valid(dobj.inode) && FileOf(dobj.inode) == Apply(old(FileOf(dobj.inode)), Remove(dobj.addr))
    ensures Pieces(dobj.inode.order) == Others(old(Pieces(dobj.inode.order)), dobj.addr)
    ensures dobj.inode.numExts == |Pieces(dobj.inode.order)|
    ensures dobj.inode.size == old(dobj.inode.size)
    ensures dobj.inode.doMap == old(dobj.inode.doMap) - {dobj.addr}
    ensures dobj.inode.dobjs == old(dobj.inode.dobjs) - {dobj}
    ensures dobj.inode.exts <= old(dobj.inode.exts) && dobj.inode.version == old(dobj.inode.version)
    ensures LifeKept(dobj.inode)
  {
    hide Emptying, Mid, MidBut, TreeOk, Pieces, Fading, Ordered, BytesOf, Apply, RefsOk, MapOk, Occupied, Others;
    hide Valid;
    var inode := dobj.inode;
    ValidParts(inode);
    ghost var v, f := Pieces(inode.order), FileOf(inode);
    Unmap(inode, dobj);
    NotYetFading(v, dobj.addr);
    DropRefs(inode, dobj, v);
    Discard(inode, dobj);
    AllGone(inode, v, dobj.addr, f);
  }
}
