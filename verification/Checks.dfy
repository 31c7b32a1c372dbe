/** check_extent of incont.c: the assertions on one extent, and what of them every extent of a
    well-formed layout passes. */
module Checks {
  import opened Sequences
  import opened Extents
  import opened Trees
  import opened Edits
  import opened Rebalancing
  import opened RefLists
  import opened Layouts

  /** What a slot holds. */
  function HeldIn(s: Slot): Extent?
    reads (if s.RootOf? then {s.inode} else {})`flayout,
          (if s.LeftOf? then {s.e} else {})`left, (if s.RightOf? then {s.e} else {})`right
  {
    match s
    case NoSlot => null
    case RootOf(i) => i.flayout
    case LeftOf(e) => e.left
    case RightOf(e) => e.right
  }

  /** check_extent's assertions on the reference list. */
  predicate RefLinksPass(ext: Extent)
    reads *
  {
    && (if ext.prevRef != null then ext.prevRef.nextRef == ext else ext.dobj.refs == ext)
    && (ext.nextRef != null ==> ext.nextRef.prevRef == ext)
  }

  /** check_extent's assertions on the tree. */
  predicate TreeLinksPass(ext: Extent)
    reads *
  {
    && HeldIn(ext.pivot) == ext
    && (ext.parent == null || ext.pivot == LeftOf(ext.parent) || ext.pivot == RightOf(ext.parent))
    && (ext.left != null ==> ext.left.parent == ext && ext.left.pivot == LeftOf(ext))
    && (ext.right != null ==> ext.right.parent == ext && ext.right.pivot == RightOf(ext))
    && ext.depth == Max(Depth(ext.left), Depth(ext.right)) + 1
    && Abs(Depth(ext.left) - Depth(ext.right)) < 2
  }

  /** check_extent(ext, p, durRep): whether all its assertions hold; while extents are being
      replaced the successor's place is not compared. */
  predicate CheckExtent(ext: Extent, durRep: bool)
    reads *
  {
    && ext.length > 0 && RefLinksPass(ext) && TreeLinksPass(ext)
    && (ext.prev != null ==> ext.prev.next == ext && ext.prev.offF + ext.prev.length <= ext.offF)
    && (ext.next != null ==> ext.next.prev == ext && (durRep || ext.next.offF >= ext.length + ext.offF))
  }

  lemma RefLinksAt(inode: Inode, ext: Extent)
    requires RefsOk(inode) && ext in inode.exts
    ensures RefLinksPass(ext)
  {
    hide NoDup;
    var d := ext.dobj;
    assert RefListOk(d, inode.exts);
    var i :| 0 <= i < |d.refSeq| && d.refSeq[i] == ext;
    assert ext.prevRef == ElemOrNull(d.refSeq, i - 1);
    assert i > 0 ==> d.refSeq[i - 1].nextRef == ext;
    assert i + 1 < |d.refSeq| ==> d.refSeq[i + 1].prevRef == ext;
  }

  lemma RootSlot(t: Tree, top: Slot)
    requires t.Node?
    ensures SlotIn(t, t.e, top) == top
  {
  }

  lemma TreeLinksAt(inode: Inode, es: set<Extent>, ext: Extent)
    requires TreeOk(inode, es) && ext in es
    ensures TreeLinksPass(ext)
  {
    hide Elems, Inorder, Threaded, Distinct, Sub, SlotIn, LeftKid, RightKid;
    var t := inode.shape;
    assert LinksOk(t, ext, RootOf(inode)) && DepthOk(ext, es);
    SlotOwner(t, ext, RootOf(inode));
    KidSlots(t, ext, RootOf(inode));
    if ext.parent != null { assert LinksOk(t, ext.parent, RootOf(inode)); }
    if ext.left != null { assert LinksOk(t, ext.left, RootOf(inode)); }
    if ext.right != null { assert LinksOk(t, ext.right, RootOf(inode)); }
    if ext == Root(t) { RootSlot(t, RootOf(inode)); }
  }
}
