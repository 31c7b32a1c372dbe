/** Cloning a range: the list pado_read emits for a clone source is fed to pado_clone. */
module Copying {
  import opened Extents
  import opened ByteMap
  import opened Rewrites
  import opened Replacing
  import opened FileSpec
  import opened Files
  import opened ReadLists
  import opened Reading

  /** Whose byte a listed entry names. */
  lemma FaithfulAddrs(x: seq<Piece>, v: seq<Piece>, base: Addr, lo: int, hi: int, i: nat)
    requires Faithful(x, v, base, lo, hi) && i < |x|
    ensures x[i].addr == base || exists j :: 0 <= j < |v| && x[i].addr == v[j].addr
  {
    hide Look;
    TilesOrdered(x, lo, hi);
    assert x[i].length > 0;
    LookAt(x, i, x[i].offF);
    if Look(v, x[i].offF).Some? { LookCovers(v, x[i].offF); }
  }

  ghost function CopiedFrom(src: File, dst: File, base: Addr, s: nat, n: nat, t: nat, b: int): Loc {
    if t <= b < t + n
    then if s + (b - t) in src.bytes then src.bytes[s + (b - t)] else Loc(base, s + (b - t))
    else if b in dst.bytes then dst.bytes[b] else Loc(base, b)
  }

  /** The byte map of [t, t + n) becomes that of the source's [s, s + n). */
  ghost predicate Copied(g: File, src: File, dst: File, base: Addr, s: nat, n: nat, t: nat) {
    && g.size == Larger(dst.size, t + n)
    && forall b: int ::
        && (b in g.bytes <==> if t <= b < t + n then s + (b - t) < src.size else b in dst.bytes)
        && (b in g.bytes ==> g.bytes[b] == CopiedFrom(src, dst, base, s, n, t, b))
  }

  /** No entry read ends the list. */
  lemma ListAddrs(list: seq<Entry>, v: seq<Piece>, base: Addr, s: nat, hi: int)
    requires Faithful(Placed(list, s), v, base, s, hi) && base != END_MARK
    requires forall i | 0 <= i < |v| :: v[i].addr != END_MARK
    ensures forall i | 0 <= i < |list| :: list[i].addr != END_MARK
  {
    hide Faithful;
    forall i | 0 <= i < |list| ensures list[i].addr != END_MARK { FaithfulAddrs(Placed(list, s), v, base, s, hi, i); }
  }

  /** The list read is one that may be cloned, and cloning it copies. */
  lemma CopyAll(f: File, v: seq<Piece>, bino: nat, s: nat, n: nat, list: seq<Entry>, g: File, t: nat)
    requires f.bytes == BytesOf(v) && n > 0 && f.size >= 0 && bino != 0
    requires forall i | 0 <= i < |v| :: v[i].addr != END_MARK
    requires var hi := if s + n < f.size then s + n else f.size;
      if s < hi then Faithful(Placed(list, s), v, Addr(0, bino), s, hi) else list == []
    ensures Proper(Clone(list, t, t + n)) && UpToMark(list + [Entry(END_MARK, 0, 0, 0)]) == list
    ensures (list + [Entry(END_MARK, 0, 0, 0)])[|list|].addr == END_MARK && CloneFits(g, list, t, t + n)
    ensures Ordered(Placed(list, t)) && forall i | 0 <= i < |list| :: list[i].offset < n
    ensures Copied(Apply(g, Clone(list, t, t + n)), f, g, Addr(0, bino), s, n, t)
  {
    hide Faithful, Look, Over, BytesOf, CloneFits;
    var base, h := Addr(0, bino), Apply(g, Clone(list, t, t + n));
    if s < f.size { ListAddrs(list, v, base, s, if s + n < f.size then s + n else f.size); }
    MarkedList(list, Entry(END_MARK, 0, 0, 0));
    CopyRange(f, v, base, s, n, list, g, t, 0);
    forall b: int
      ensures b in h.bytes <==> if t <= b < t + n then s + (b - t) < f.size else b in g.bytes
      ensures b in h.bytes ==> h.bytes[b] == CopiedFrom(f, g, base, s, n, t, b)
    {
      CopyRange(f, v, base, s, n, list, g, t, b);
    }
    assert h.size == Larger(g.size, t + n);
  }

  /** Reading [s, s + n) of src as a clone source and cloning the list into dst at t; no assertion trips. */
  method CopyRangeTo(src: Inode, bino: nat, s: nat, n: nat, dst: Inode, t: nat) returns (ret: ReadReply)
    requires Valid(src) && Addressable(Pieces(src.order)) && Valid(dst) && n > 0 && bino != 0
    requires forall i | 0 <= i < |src.order| :: src.order[i].dobj.addr != END_MARK
    modifies dst, dst.exts, dst.dobjs
    ensures Valid(dst) && Copied(FileOf(dst), old(FileOf(src)), old(FileOf(dst)), Addr(0, bino), s, n, t)
    ensures ret == BaseCloned <==> HoleIn(old(FileOf(src)), s, s + n)
  {
    hide Valid, WellLinked, UpToMark, Pieces, Ordered, Faithful, Look, Over, HoleIn, HasHole, BytesOf, Copied, Apply;
    hide Proper, Placed, CloneFits, CloneStands, Rewritten, Clipped;
    ghost var f, g, v := FileOf(src), FileOf(dst), Pieces(src.order);
    var list;
    list, ret := PadoRead(src, bino, true, s, s + n);
    HolesAre(f, v, s, s + n);
    CopyAll(f, v, bino, s, n, list, g, t);
    NoneAtEnd(Pieces(dst.order), list, t, t + n);
    var passed, m := PadoClone(dst, list + [Entry(END_MARK, 0, 0, 0)], t, t + n);
    assert passed;
  }
}
