/** The reference list of each data object and the extent counters
    (create_extent and release_extent in incont.c). */
module RefLists {
  import opened Sequences
  import opened Extents
  import opened Edits

  /** d's list is exactly refSeq, doubly linked through extents of es, and counted by numRefs. */
  ghost predicate RefListOk(d: Dobject, es: set<Extent>)
    reads d, es`prevRef, es`nextRef
  {
    && NoDup(d.refSeq) && d.numRefs == |d.refSeq| && d.refs == ElemOrNull(d.refSeq, 0)
    && forall i {:trigger d.refSeq[i]} | 0 <= i < |d.refSeq| :: var e := d.refSeq[i];
        e in es && e.dobj == d && e.prevRef == ElemOrNull(d.refSeq, i - 1) && e.nextRef == ElemOrNull(d.refSeq, i + 1)
  }

  /** Every live extent is on its object's list, the lists hold nothing else, and numExts counts them. */
  ghost predicate RefsOk(inode: Inode)
    reads inode`exts, inode`dobjs, inode`numExts, inode.dobjs, inode.exts`prevRef, inode.exts`nextRef
  {
    && inode.numExts == |inode.exts|
    && (forall d <- inode.dobjs :: d.inode == inode && RefListOk(d, inode.exts))
    && (forall e <- inode.exts :: e.dobj in inode.dobjs && e in e.dobj.refSeq)
  }

  /** A new first element. */
  lemma PushedSeq(s: seq<Extent>, e: Extent, es: set<Extent>)
    requires NoDup(s) && e !in es && forall i | 0 <= i < |s| :: s[i] in es
    ensures NoDup([e] + s) && ElemOrNull(s, 0) != e
    ensures forall i: int ::
      ElemOrNull([e] + s, i) == if i == 0 then e else if i < 0 then null else ElemOrNull(s, i - 1)
    ensures forall i | 0 < i < |s| :: s[i] != ElemOrNull(s, 0)
  {
  }

  lemma HeadRef(d: Dobject, es: set<Extent>)
    requires RefListOk(d, es)
    ensures if d.refSeq == [] then d.refs == null else d.refs == d.refSeq[0] && d.refs in es && d.refs.dobj == d
    ensures ElemOrNull(d.refSeq, -1) == null && d.refs == ElemOrNull(d.refSeq, 0)
  {
  }

  /** e goes to the head of d's list. */
  method PushRef(d: Dobject, e: Extent, ghost es: set<Extent>)
    requires RefListOk(d, es) && e !in es && e.dobj == d
    modifies {d}`refs, {d}`numRefs, {d}`refSeq, {e}`prevRef, {e}`nextRef, es`prevRef
    ensures RefListOk(d, es + {e}) && d.refSeq == [e] + old(d.refSeq)
    ensures forall x <- es :: x.dobj != d ==> x.prevRef == old(x.prevRef)
  {
    hide NoDup, ElemOrNull;
    ghost var s := d.refSeq;
    PushedSeq(s, e, es);
    HeadRef(d, es);
    e.nextRef := d.refs;
    e.prevRef := null;
    if d.refs != null {
      d.refs.prevRef := e;
    }
    d.refs := e;
    d.numRefs := d.numRefs + 1;
    d.refSeq := [e] + s;
    forall i | 0 <= i < |d.refSeq|
      ensures d.refSeq[i].prevRef == ElemOrNull(d.refSeq, i - 1) && d.refSeq[i].nextRef == ElemOrNull(d.refSeq, i + 1)
    {
      if i > 0 { assert d.refSeq[i] == s[i - 1] && s[i - 1] in es; }
    }
  }

  /** The links of the k-th extent on d's list. */
  lemma RefAt(d: Dobject, es: set<Extent>, k: nat)
    requires RefListOk(d, es) && k < |d.refSeq|
    ensures var e := d.refSeq[k];
      && e in es && e.dobj == d && e.prevRef == ElemOrNull(d.refSeq, k - 1) && e.nextRef == ElemOrNull(d.refSeq, k + 1)
      && (e.prevRef != null ==> e.prevRef in es && e.prevRef != e)
      && (e.nextRef != null ==> e.nextRef in es && e.nextRef != e && e.nextRef != e.prevRef)
    ensures d.numRefs == |d.refSeq| && d.refs == ElemOrNull(d.refSeq, 0)
  {
  }

  /** e, the k-th of d's list, is unlinked. */
  method UnlinkRef(d: Dobject, e: Extent, ghost k: nat, ghost es: set<Extent>)
    requires RefListOk(d, es) && k < |d.refSeq| && d.refSeq[k] == e
    modifies {d}`refs, {d}`numRefs, {d}`refSeq, es`prevRef, es`nextRef
    ensures d.refSeq == Without(old(d.refSeq), k) && d.numRefs == old(d.numRefs) - 1
    ensures d.refs == ElemOrNull(old(d.refSeq), if k == 0 then 1 else 0)
    ensures var s := old(d.refSeq);
      forall x <- es :: x.prevRef == if x == ElemOrNull(s, k + 1) then ElemOrNull(s, k - 1) else old(x.prevRef)
    ensures var s := old(d.refSeq);
      forall x <- es :: x.nextRef == if x == ElemOrNull(s, k - 1) then ElemOrNull(s, k + 1) else old(x.nextRef)
  {
    hide Without, RefListOk;
    RefAt(d, es, k);
    if e.prevRef != null {
      e.prevRef.nextRef := e.nextRef;
    } else {
      d.refs := e.nextRef;
    }
    if e.nextRef != null {
      e.nextRef.prevRef := e.prevRef;
    }
    d.numRefs := d.numRefs - 1;
    d.refSeq := Without(d.refSeq, k);
  }

  /** Unlinking keeps d's list well formed and the other lists as they were. */
  method UnlinkAt(d: Dobject, e: Extent, ghost k: nat, ghost es: set<Extent>)
    requires RefListOk(d, es) && k < |d.refSeq| && d.refSeq[k] == e
    modifies {d}`refs, {d}`numRefs, {d}`refSeq, es`prevRef, es`nextRef
    ensures d.refSeq == Without(old(d.refSeq), k) && RefListOk(d, es - {e})
    ensures forall x <- es :: x.dobj != d ==> x.prevRef == old(x.prevRef) && x.nextRef == old(x.nextRef)
  {
    hide Without, NoDup;
    ghost var s := d.refSeq;
    WithoutAt(s, k);
    DupFree(s);
    UnlinkRef(d, e, k, es);
    forall j | 0 <= j < |d.refSeq| ensures var x := d.refSeq[j];
      && x in es - {e} && x.dobj == d
      && x.prevRef == ElemOrNull(d.refSeq, j - 1) && x.nextRef == ElemOrNull(d.refSeq, j + 1)
    {
      WithoutNeighbours(s, k, j);
      assert s[if j < k then j else j + 1] in es;
    }
  }

  /** What the reference lists say of d. */
  lemma RefsAt(inode: Inode, d: Dobject)
    requires RefsOk(inode) && d in inode.dobjs
    ensures d.inode == inode && inode.numExts == |inode.exts| && RefListOk(d, inode.exts)
    ensures forall e <- inode.exts :: e.dobj == d ==> e in d.refSeq
  {
  }

  /** RefsOk after one list changed: the others are kept. */
  twostate lemma RefsKept(inode: Inode, new dobj: Dobject, new es': set<Extent>)
    requires old(RefsOk(inode)) && dobj in old(inode.dobjs)
    requires inode.dobjs == old(inode.dobjs) && inode.exts == es' && inode.numExts == |es'|
    requires RefListOk(dobj, es')
    requires forall d <- inode.dobjs :: d != dobj ==>
      d.refs == old(d.refs) && d.numRefs == old(d.numRefs) && d.refSeq == old(d.refSeq)
    requires forall e <- old(inode.exts) :: e.dobj != dobj ==>
      e in es' && e.prevRef == old(e.prevRef) && e.nextRef == old(e.nextRef)
    requires forall e <- es' :: if e.dobj == dobj then e in dobj.refSeq else e in old(inode.exts)
    ensures RefsOk(inode)
  {
    forall d <- inode.dobjs ensures RefListOk(d, es') {
      if d != dobj { assert old(RefListOk(d, inode.exts)); }
    }
  }

  /** e joins the head of its object's list and the counters. */
  method CountRef(inode: Inode, e: Extent)
    requires RefsOk(inode) && e.dobj in inode.dobjs && e !in inode.exts
    modifies inode`exts, inode`numExts, {e.dobj}`refs, {e.dobj}`numRefs, {e.dobj}`refSeq
    modifies {e}`prevRef, {e}`nextRef, inode.exts`prevRef
    ensures RefsOk(inode) && inode.exts == old(inode.exts) + {e}
    ensures e.dobj.refSeq == [e] + old(e.dobj.refSeq)
  {
    hide RefsOk, RefListOk, NoDup;
    ghost var es := inode.exts;
    RefsAt(inode, e.dobj);
    PushRef(e.dobj, e, es);
    inode.numExts := inode.numExts + 1;
    inode.exts := inode.exts + {e};
    RefsKept(inode, e.dobj, es + {e});
  }

  /** create_extent: a new extent at the head of dobj's list. */
  method CreateExtent(dobj: Dobject, offF: nat, offDo: nat, length: nat) returns (newone: Extent)
    requires RefsOk(dobj.inode) && dobj in dobj.inode.dobjs
    modifies dobj.inode`exts, dobj.inode`numExts, {dobj}`refs, {dobj}`numRefs, {dobj}`refSeq, dobj.inode.exts`prevRef
    ensures fresh(newone) && newone.dobj == dobj
    ensures newone.offF == offF && newone.offDo == offDo && newone.length == length
    ensures newone.depth == 1 && newone.pivot == NoSlot
    ensures newone.parent == newone.left == newone.right == newone.prev == newone.next == null
    ensures RefsOk(dobj.inode) && dobj.inode.exts == old(dobj.inode.exts) + {newone}
    ensures dobj.refSeq == [newone] + old(dobj.refSeq)
  {
    hide RefsOk;
    newone := new Extent(dobj, offF, offDo, length);
    CountRef(dobj.inode, newone);
  }

  /** do_map holds exactly the live objects under their addresses; `gone` is the
      object being removed, which is live but no longer mapped. */
  ghost predicate MapOk(inode: Inode, gone: Dobject?)
    reads inode`doMap, inode`dobjs
  {
    && (forall a <- inode.doMap :: inode.doMap[a] in inode.dobjs && inode.doMap[a].addr == a && inode.doMap[a] != gone)
    && (forall d <- inode.dobjs :: d != gone ==> d.addr in inode.doMap && inode.doMap[d.addr] == d)
  }

  /** Every mapped object has an extent. */
  ghost predicate Occupied(inode: Inode, except: Dobject?)
    reads inode`dobjs, inode.dobjs`refSeq
  {
    forall d <- inode.dobjs :: d != except ==> d.refSeq != []
  }

  /** target leaves its list and the counters. */
  method ReleaseRef(inode: Inode, target: Extent)
    requires RefsOk(inode) && target in inode.exts
    modifies inode`exts, inode`numExts
    modifies {target.dobj}`refs, {target.dobj}`numRefs, {target.dobj}`refSeq, inode.exts`prevRef, inode.exts`nextRef
    ensures RefsOk(inode) && inode.exts == old(inode.exts) - {target}
    ensures exists k | 0 <= k < |old(target.dobj.refSeq)| ::
      old(target.dobj.refSeq)[k] == target && target.dobj.refSeq == Without(old(target.dobj.refSeq), k)
  {
    hide Without, NoDup, RefListOk;
    var dobj := target.dobj;
    ghost var es := inode.exts;
    ghost var k :| 0 <= k < |dobj.refSeq| && dobj.refSeq[k] == target;
    RefsAt(inode, dobj);
    UnlinkAt(dobj, target, k, es);
    inode.numExts := inode.numExts - 1;
    inode.exts := inode.exts - {target};
    StillListed(old(dobj.refSeq), k);
    RefsKept(inode, dobj, es - {target});
  }

  /** The object leaves do_map and is freed. */
  method DropDobject(inode: Inode, dobj: Dobject, ghost gone: Dobject?)
    requires RefsOk(inode) && MapOk(inode, gone) && dobj in inode.dobjs && dobj != gone && dobj.refSeq == []
    modifies inode`doMap, inode`dobjs
    ensures RefsOk(inode) && MapOk(inode, gone)
    ensures inode.dobjs == old(inode.dobjs) - {dobj} && inode.doMap == old(inode.doMap) - {dobj.addr}
  {
    hide RefListOk;
    inode.doMap := inode.doMap - {dobj.addr};
    inode.dobjs := inode.dobjs - {dobj};
  }

  lemma OwnObject(inode: Inode, e: Extent)
    requires RefsOk(inode) && e in inode.exts
    ensures e.dobj in inode.dobjs
  {
  }

  lemma NoRefs(inode: Inode, d: Dobject)
    requires RefsOk(inode) && d in inode.dobjs
    ensures (d.refs == null <==> d.refSeq == []) && d.numRefs == |d.refSeq|
  {
  }

  /** release_extent: the extent leaves its list; a triggered release that empties
      the list also removes the object, whose remove_dobject then has no extents to remove. */
  method ReleaseExtent(inode: Inode, target: Extent, triggered: bool, ghost gone: Dobject?)
    requires RefsOk(inode) && MapOk(inode, gone) && target in inode.exts
    requires triggered ==> target.dobj != gone
    modifies inode`exts, inode`numExts, inode`doMap, inode`dobjs
    modifies {target.dobj}`refs, {target.dobj}`numRefs, {target.dobj}`refSeq, inode.exts`prevRef, inode.exts`nextRef
    ensures RefsOk(inode) && MapOk(inode, gone) && inode.exts == old(inode.exts) - {target}
    ensures exists k | 0 <= k < |old(target.dobj.refSeq)| ::
      old(target.dobj.refSeq)[k] == target && target.dobj.refSeq == Without(old(target.dobj.refSeq), k)
    ensures if triggered && target.dobj.refSeq == []
      then inode.dobjs == old(inode.dobjs) - {target.dobj} && inode.doMap == old(inode.doMap) - {target.dobj.addr}
      else inode.dobjs == old(inode.dobjs) && inode.doMap == old(inode.doMap)
  {
    hide Without, NoDup, MapOk, RefListOk, RefsOk;
    var dobj := target.dobj;
    OwnObject(inode, target);
    ReleaseRef(inode, target);
    NoRefs(inode, dobj);
    if dobj.refs == null {
      assert dobj.numRefs == 0;
      if triggered { DropDobject(inode, dobj, gone); }
    }
  }
}
