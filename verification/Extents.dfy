/** The records of incont.h: data objects, extents and inodes.

    `Slot` stands for the source's `pivot`, the address of the pointer that
    holds an extent: the root pointer of an inode or a child pointer of another
    extent.  Ghost fields record the shape of the tree and the order of the
    reference lists. */
module Extents {
  /** The address of a data object: the host and the object's number there. */
  datatype Addr = Addr(host: nat, loid: nat)

  /** The shape of an extent tree. */
  datatype Tree = Nil | Node(l: Tree, e: Extent, r: Tree)

  class Inode {
    const ino: nat
    var size: nat
    var version: nat
    var flayout: Extent?
    var numExts: int
    var refcount: int
    var doMap: map<Addr, Dobject>
    var shared: bool
    var deleted: bool
    var dlocked: bool
    ghost var shape: Tree          // the tree under flayout
    ghost var order: seq<Extent>   // its extents in order
    ghost var exts: set<Extent>    // every live extent: those in the tree and those not yet inserted
    ghost var dobjs: set<Dobject>  // every live data object

    constructor (ino: nat, size: nat)
      ensures this.ino == ino && this.size == size && version == 0 && refcount == 0
      ensures flayout == null && numExts == 0 && doMap == map[]
      ensures !shared && !deleted && !dlocked
      ensures shape == Nil && order == [] && exts == {} && dobjs == {}
    {
      this.ino, this.size, version, refcount := ino, size, 0, 0;
      flayout, numExts, doMap := null, 0, map[];
      shared, deleted, dlocked := false, false, false;
      shape, order, exts, dobjs := Nil, [], {}, {};
    }
  }

  class Dobject {
    const addr: Addr
    const inode: Inode
    var refs: Extent?
    var numRefs: nat
    ghost var refSeq: seq<Extent>  // the reference list, first to last

    constructor (addr: Addr, inode: Inode)
      ensures this.addr == addr && this.inode == inode
      ensures refs == null && numRefs == 0 && refSeq == []
    {
      this.addr, this.inode := addr, inode;
      refs, numRefs, refSeq := null, 0, [];
    }
  }

  class Extent {
    const dobj: Dobject
    var offF: nat
    var offDo: nat
    var length: nat
    var prevRef: Extent?
    var nextRef: Extent?
    var depth: int
    var parent: Extent?
    var pivot: Slot
    var left: Extent?
    var right: Extent?
    var prev: Extent?
    var next: Extent?

    constructor (dobj: Dobject, offF: nat, offDo: nat, length: nat)
      ensures this.dobj == dobj && this.offF == offF && this.offDo == offDo && this.length == length
      ensures depth == 1 && prevRef == nextRef == null
      ensures parent == left == right == prev == next == null && pivot == NoSlot
    {
      this.dobj, this.offF, this.offDo, this.length := dobj, offF, offDo, length;
      depth, prevRef, nextRef, pivot := 1, null, null, NoSlot;
      parent, left, right, prev, next := null, null, null, null, null;
    }
  }

  datatype Slot = NoSlot | RootOf(inode: Inode) | LeftOf(e: Extent) | RightOf(e: Extent)

  /** The extent whose child pointer a slot is; null for a root pointer. */
  ghost function Owner(s: Slot): Extent? {
    match s
    case LeftOf(e) => e
    case RightOf(e) => e
    case _ => null
  }

  /** The contents of one extent: file range [offF, offF + length) lives in the
      object `addr` from offset offDo on. */
  datatype Piece = Piece(addr: Addr, offF: nat, offDo: nat, length: nat)
}
