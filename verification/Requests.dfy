/** The command dispatch of inserver.c on one inode, with requests taken as atomic:
    its life from creation to release. */
module Requests {
  import opened Sequences
  import opened Extents
  import opened Trees
  import opened RefLists
  import opened Layouts
  import opened ByteMap
  import opened Rewrites
  import opened Replacing
  import opened FileSpec
  import opened Files
  import opened ReadLists
  import opened Reading
  import opened Balance

  /** What a client can tell of an inode. */
  datatype State = State(file: File, version: nat, refcount: int, shared: bool, deleted: bool)

  datatype Request =
    | WriteReq(host: nat, loid: nat, offF: nat, offDo: nat, len: nat)
    | TruncateReq(newsize: nat)
    | ReadReq(flag: bool, start: nat, len: nat)
    | CloneReq(input: seq<Entry>, start: nat, len: nat)
    | OpenReq
    | RemoveReq(host: nat, loid: nat)
    | DeleteReq
    | UnrefReq

  datatype Reply = Success | IsDeleted | IsUsed | InvalidUnref | InvalidDobject | InvalidRange

  datatype Outcome = Outcome(state: State, reply: Reply, free: bool)

  /** What the code demands of a request's arguments; offsets fit in size_t. */
  ghost predicate Admissible(r: Request) {
    match r
    case WriteReq(host, loid, offF, offDo, len) => len > 0 && offDo + len <= W
    case CloneReq(input, start, len) =>
      && Proper(Clone(UpToMark(input), start, start + len))
      && (exists i :: 0 <= i < |input| && input[i].addr == END_MARK)
      && forall i | 0 <= i < |UpToMark(input)| :: UpToMark(input)[i].offDo + UpToMark(input)[i].length <= W
    case _ => true
  }

  /** All assertions hold while the request is served on the layout v of the state s, and when the
      inode is printed at its end. */
  ghost predicate Survives(v: seq<Piece>, s: State, r: Request) {
    r.CloneReq? && !s.deleted ==>
      var list, end := UpToMark(r.input), r.start + r.len;
      CloneStands(v, list, r.start, end) && CloneFits(s.file, list, r.start, end)
  }

  /** No request but a clone whose list has an entry at the end of its range can trip an assertion. */
  lemma SafeRequest(v: seq<Piece>, s: State, r: Request)
    requires r.CloneReq? ==> forall i | 0 <= i < |UpToMark(r.input)| :: UpToMark(r.input)[i].offset != r.len
    ensures Survives(v, s, r)
  {
    hide UpToMark;
  }

  ghost predicate Mapped(f: File, a: Addr) {
    exists b :: b in f.bytes && f.bytes[b].addr == a
  }

  /** release_inode: an inode without references, extents or shared base is marked deleted. */
  ghost function Released(s: State, reply: Reply): Outcome {
    if s.refcount > 0 || s.file.bytes != imap[] || s.shared then Outcome(s, reply, false)
    else Outcome(s.(deleted := true), reply, true)
  }

  ghost function Edited(s: State, op: Op): Outcome {
    Outcome(s.(file := Apply(s.file, op), version := s.version + 1), Success, false)
  }

  /** One request. */
  ghost function Step(s: State, r: Request): Outcome {
    if s.deleted then Outcome(s, IsDeleted, false)
    else match r
      case WriteReq(host, loid, offF, offDo, len) => Edited(s, Write(Addr(host, loid), offF, offDo, len))
      case TruncateReq(newsize) => Edited(s, Truncate(newsize))
      case CloneReq(input, start, len) => Edited(s, Clone(UpToMark(input), start, start + len))
      case ReadReq(flag, start, len) =>
        Outcome(s.(shared := s.shared || (flag && HoleIn(s.file, start, start + len))),
          if start >= start + len || start >= s.file.size then Reply.InvalidRange else Success, false)
      case OpenReq => Outcome(s.(refcount := s.refcount + 1), Success, false)
      case RemoveReq(host, loid) =>
        if host == 0 && loid == 0 then Released(s.(shared := false), if s.shared then Success else InvalidDobject)
        else Released(s.(file := Apply(s.file, Remove(Addr(host, loid)))),
          if Mapped(s.file, Addr(host, loid)) then Success else InvalidDobject)
      case DeleteReq =>
        if s.refcount > 0 then Outcome(s, IsUsed, false)
        else Released(s.(file := s.file.(bytes := imap[]), shared := false), Success)
      case UnrefReq =>
        if s.refcount - 1 < 0 then Released(s.(refcount := 0), InvalidUnref)
        else Released(s.(refcount := s.refcount - 1), Success)
  }

  ghost function Newborn(size: nat): State { State(Blank(size), 0, 0, false, false) }

  ghost function Serves(s: State, rs: seq<Request>): State {
    if rs == [] then s else Step(Serves(s, rs[..|rs| - 1]), rs[|rs| - 1]).state
  }

  /** Every object offset fits in size_t. */
  ghost predicate InSizeT(f: File) {
    forall b :: b in f.bytes ==> 0 <= f.bytes[b].off < W
  }

  /** What every reachable state satisfies. */
  ghost predicate Good(s: State) {
    && Sized(s.file) && InSizeT(s.file) && s.refcount >= 0
    && (s.deleted ==> s.file.bytes == imap[] && s.refcount == 0 && !s.shared)
  }

  lemma LookInside(x: seq<Piece>, b: int)
    requires Look(x, b).Some? && Addressable(x)
    ensures 0 <= Look(x, b).value.off < W
  {
    LookCovers(x, b);
  }

  lemma OverInSizeT(f: File, w: seq<Piece>, start: int, end: int)
    requires InSizeT(f) && Addressable(w)
    ensures InSizeT(File(f.size, Over(f.bytes, w, start, end)))
  {
    hide Look, Addressable;
    forall b: int | Look(w, b).Some? ensures 0 <= Look(w, b).value.off < W { LookInside(w, b); }
  }

  /** An edit keeps the file sized and its offsets within size_t. */
  lemma EditGood(f: File, op: Op)
    requires Sized(f) && InSizeT(f) && Proper(op)
    requires match op
      case Write(_, _, offDo, length) => offDo + length <= W
      case Clone(list, start, _) => Addressable(Placed(list, start))
      case _ => true
    ensures Sized(Apply(f, op)) && InSizeT(Apply(f, op))
  {
    hide Sized, Look, Over, Ordered, Placed;
    ApplySized(f, op);
    match op
    case Write(addr, offF, offDo, length) =>
      OverInSizeT(f, [Piece(addr, offF, offDo, length)], offF, offF + length);
    case Truncate(newsize) => OverInSizeT(f, [], newsize, f.size);
    case Clone(list, start, end) => OverInSizeT(f, Placed(list, start), start, end);
    case Remove(_) =>
  }

  /** What each request is answered, by the state it finds. */
  ghost predicate Answered(s: State, r: Request, reply: Reply) {
    && (reply == IsDeleted <==> s.deleted)
    && (reply == IsUsed <==> !s.deleted && r.DeleteReq? && s.refcount > 0)
    && (reply == InvalidUnref <==> !s.deleted && r.UnrefReq? && s.refcount <= 0)
    && (reply == Reply.InvalidRange <==> !s.deleted && r.ReadReq? && (r.len == 0 || s.file.size <= r.start))
    && (reply == InvalidDobject <==> (!s.deleted && r.RemoveReq?
        && if r.host == 0 && r.loid == 0 then !s.shared
          else forall b | b in s.file.bytes :: s.file.bytes[b].addr != Addr(r.host, r.loid)))
  }

  lemma AnswerIs(s: State, r: Request)
    ensures Answered(s, r, Step(s, r).reply)
  {
    hide Apply, HoleIn;
  }

  /** A request that is refused changes nothing, and an inode is freed exactly when it is marked deleted. */
  lemma RefusedKeeps(s: State, r: Request)
    ensures var o := Step(s, r);
      && (o.reply == IsDeleted || o.reply == IsUsed || o.reply == Reply.InvalidRange ==>
        o.state.file == s.file && o.state.refcount == s.refcount && o.state.version == s.version && !o.free)
      && (o.free <==> o.state.deleted && !s.deleted)
  {
    hide Apply, Mapped, HoleIn;
  }

  lemma EmptiedGood(f: File)
    requires Sized(f)
    ensures Sized(f.(bytes := imap[])) && InSizeT(f.(bytes := imap[]))
  {
  }

  lemma StepGood(s: State, r: Request)
    requires Good(s) && Admissible(r)
    ensures var o := Step(s, r); Good(o.state) && (o.free ==> o.state.deleted)
  {
    hide Sized, InSizeT, Apply, Ordered, UpToMark, HoleIn, Mapped;
    match r {
      case WriteReq(host, loid, offF, offDo, len) => EditGood(s.file, Write(Addr(host, loid), offF, offDo, len));
      case CloneReq(input, start, len) => EditGood(s.file, Clone(UpToMark(input), start, start + len));
      case TruncateReq(newsize) => EditGood(s.file, Truncate(newsize));
      case RemoveReq(host, loid) => EditGood(s.file, Remove(Addr(host, loid)));
      case DeleteReq => EmptiedGood(s.file);
      case _ =>
    }
  }

  lemma {:induction false} ServesGood(s: State, rs: seq<Request>)
    requires Good(s) && forall i | 0 <= i < |rs| :: Admissible(rs[i])
    ensures Good(Serves(s, rs))
  {
    if rs != [] {
      ServesGood(s, rs[..|rs| - 1]);
      StepGood(Serves(s, rs[..|rs| - 1]), rs[|rs| - 1]);
    }
  }

  /** A deleted inode answers every request of a sequence with an error, frees nothing more,
      and stays as it is. */
  lemma {:induction false} DeletedForGood(s: State, rs: seq<Request>)
    requires s.deleted
    ensures Serves(s, rs) == s
    ensures forall i | 0 <= i < |rs| :: Step(Serves(s, rs[..i]), rs[i]) == Outcome(s, IsDeleted, false)
  {
    if rs != [] {
      var most := rs[..|rs| - 1];
      DeletedForGood(s, most);
      forall i | 0 <= i < |rs| ensures Step(Serves(s, rs[..i]), rs[i]) == Outcome(s, IsDeleted, false) {
        if i < |most| { assert most[..i] == rs[..i] && most[i] == rs[i]; }
      }
    }
  }

  // ---- the requests on the heap

  ghost function StateOf(inode: Inode): State
    reads inode, inode.order`offF, inode.order`offDo, inode.order`length
  {
    State(FileOf(inode), inode.version, inode.refcount, inode.shared, inode.deleted)
  }

  lemma HasRef(d: Dobject, es: set<Extent>)
    requires RefListOk(d, es) && d.refSeq != []
    ensures d.refSeq[0] in es && d.refSeq[0].dobj == d
  {
  }

  /** Without a layout there is nothing at all. */
  lemma NoneWithout(inode: Inode)
    requires Mid(inode, inode.exts, []) && inode.order == []
    ensures inode.exts == {} && inode.numExts == 0 && inode.doMap == map[]
  {
    hide RefListOk;
    InorderElems(inode.shape);
    forall a | a in inode.doMap ensures false {
      var d := inode.doMap[a];
      assert d.refSeq != [] && RefListOk(d, inode.exts);
      HasRef(d, inode.exts);
    }
  }

  /** An inode has no layout exactly if none of its bytes is mapped. */
  lemma LayoutGone(inode: Inode)
    requires Valid(inode)
    ensures inode.flayout == null <==> FileOf(inode).bytes == imap[]
    ensures inode.flayout == null ==> inode.exts == {} && inode.numExts == 0 && inode.doMap == map[]
  {
    hide TreeOk, RefListOk;
    MidTree(inode, inode.exts, []);
    if inode.order == [] {
      NoneWithout(inode);
      assert FileOf(inode).bytes == imap[];
    } else {
      var v := Pieces(inode.order);
      LookAt(v, 0, v[0].offF);
      assert v[0].offF in FileOf(inode).bytes;
    }
  }

  lemma PieceLook(v: seq<Piece>, i: nat)
    requires Ordered(v) && i < |v|
    ensures Look(v, v[i].offF) == Some(LocIn(v[i], v[i].offF))
  {
    hide Look;
    LookAt(v, i, v[i].offF);
  }

  /** A placed extent of a mapped object. */
  lemma Occupant(inode: Inode, a: Addr) returns (i: nat)
    requires Mid(inode, inode.exts, []) && a in inode.doMap
    ensures i < |inode.order| && inode.order[i].dobj.addr == a
  {
    hide RefListOk;
    var d := inode.doMap[a];
    assert d.refSeq != [] && RefListOk(d, inode.exts);
    HasRef(d, inode.exts);
    InorderElems(inode.shape);
    i :| 0 <= i < |inode.order| && inode.order[i] == d.refSeq[0];
  }

  lemma Placement(inode: Inode, i: nat)
    requires Mid(inode, inode.exts, []) && i < |inode.order|
    ensures inode.order[i].dobj.addr in inode.doMap
  {
    AllLive(inode, inode.exts);
  }

  /** An object is in do_map exactly if some byte of the file lives in it. */
  lemma MappedIs(inode: Inode, a: Addr)
    requires Valid(inode)
    ensures Mapped(FileOf(inode), a) <==> a in inode.doMap
  {
    hide Look, Mid, Pieces, Ordered;
    var f, v := FileOf(inode), Pieces(inode.order);
    if Mapped(f, a) {
      var b :| b in f.bytes && f.bytes[b].addr == a;
      LookCovers(v, b);
      var i :| 0 <= i < |v| && Covers(v[i], b) && Look(v, b).value == LocIn(v[i], b);
      Placement(inode, i);
    }
    if a in inode.doMap {
      var i := Occupant(inode, a);
      PieceLook(v, i);
      assert v[i].offF in f.bytes && f.bytes[v[i].offF].addr == a;
    }
  }

  /** release_inode. */
  method ReleaseInode(inode: Inode) returns (free: bool)
    requires Valid(inode)
    modifies inode`deleted
    ensures Valid(inode)
    ensures var o := Released(old(StateOf(inode)), Success); StateOf(inode) == o.state && free == o.free
  {
    hide Valid, FileOf;
    LayoutGone(inode);
    if inode.refcount > 0 || inode.flayout != null || inode.shared {
      return false;
    }
    inode.deleted := true;
    return true;
  }

  // ---- the dispatch

  lemma NothingRemoved(f: File, a: Addr)
    requires !Mapped(f, a)
    ensures Apply(f, Remove(a)) == f
  {
    forall b | b in f.bytes ensures f.bytes[b].addr != a { }
    assert Apply(f, Remove(a)).bytes == f.bytes;
  }

  /** REMOVE_DOBJ for an object. */
  method ServeRemove(inode: Inode, host: nat, loid: nat) returns (reply: Reply)
    requires Valid(inode)
    modifies inode, inode.exts, inode.dobjs
    ensures Valid(inode)
    ensures StateOf(inode) == old(StateOf(inode)).(file := Apply(old(FileOf(inode)), Remove(Addr(host, loid))))
    ensures reply == if Mapped(old(FileOf(inode)), Addr(host, loid)) then Success else InvalidDobject
    ensures inode.exts <= old(inode.exts) && inode.dobjs <= old(inode.dobjs)
  {
    hide Mid, MidBut, Pieces, Ordered, Apply, Mapped, BytesOf, Without;
    MappedIs(inode, Addr(host, loid));
    ghost var f, v := FileOf(inode), Pieces(inode.order);
    var dobj := AcquireDobject(host, loid, inode, 0, inode.exts, []);
    assert Pieces(inode.order) == v;
    if dobj != null {
      RemoveDobject(dobj);
      reply := Success;
    } else {
      NothingRemoved(f, Addr(host, loid));
      reply := InvalidDobject;
    }
  }

  lemma ObjectAt(inode: Inode, a: Addr)
    requires Valid(inode) && a in inode.doMap
    ensures var d := inode.doMap[a]; d in inode.dobjs && d.addr == a && d.inode == inode
  {
  }

  lemma NoObjects(inode: Inode)
    requires Valid(inode) && inode.doMap == map[]
    ensures FileOf(inode).bytes == imap[]
  {
    forall b | b in FileOf(inode).bytes ensures false {
      var f, a := FileOf(inode), FileOf(inode).bytes[b].addr;
      assert Mapped(f, a);
      MappedIs(inode, a);
    }
  }

  /** One object is removed. */
  method RemoveOne(inode: Inode)
    requires Valid(inode) && inode.doMap != map[]
    modifies inode, inode.exts, inode.dobjs
    ensures Valid(inode) && |inode.doMap| < |old(inode.doMap)| && FileOf(inode).size == old(FileOf(inode)).size
    ensures StateOf(inode) == old(StateOf(inode)).(file := FileOf(inode))
    ensures inode.exts <= old(inode.exts) && inode.dobjs <= old(inode.dobjs)
  {
    hide Valid, FileOf;
    var a :| a in inode.doMap;
    ObjectAt(inode, a);
    var cur := inode.doMap[a];
    RemoveDobject(cur);
  }

  /** The loop of delete_inode: every object is removed. */
  method RemoveAll(inode: Inode)
    requires Valid(inode)
    modifies inode, inode.exts, inode.dobjs
    ensures Valid(inode) && StateOf(inode) == old(StateOf(inode)).(file := old(FileOf(inode)).(bytes := imap[]))
    ensures inode.exts <= old(inode.exts) && inode.dobjs <= old(inode.dobjs)
  {
    hide Valid, FileOf;
    ghost var s := StateOf(inode);
    while inode.doMap != map[]
      invariant Valid(inode) && FileOf(inode).size == s.file.size && StateOf(inode) == s.(file := FileOf(inode))
      invariant inode.exts <= old(inode.exts) && inode.dobjs <= old(inode.dobjs)
      decreases |inode.doMap|
    {
      RemoveOne(inode);
    }
    NoObjects(inode);
  }

  /** delete_inode. */
  method DeleteInode(inode: Inode) returns (free: bool)
    requires Valid(inode)
    modifies inode, inode.exts, inode.dobjs
    ensures Valid(inode)
    ensures var s := old(StateOf(inode));
      var o := Released(s.(file := s.file.(bytes := imap[]), shared := false), Success);
      StateOf(inode) == o.state && free == o.free
    ensures inode.exts <= old(inode.exts) && inode.dobjs <= old(inode.dobjs)
  {
    hide Valid, FileOf, Released;
    RemoveAll(inode);
    if inode.shared { inode.shared := false; }
    free := ReleaseInode(inode);
  }

  /** WRITE. */
  method ServeWrite(inode: Inode, host: nat, loid: nat, offF: nat, offDo: nat, len: nat)
    requires Valid(inode) && Admissible(WriteReq(host, loid, offF, offDo, len))
    modifies inode, inode.exts, inode.dobjs
    ensures Valid(inode)
    ensures StateOf(inode) == Edited(old(StateOf(inode)), Write(Addr(host, loid), offF, offDo, len)).state
    ensures fresh(inode.exts - old(inode.exts)) && fresh(inode.dobjs - old(inode.dobjs))
  {
    hide Mid, MidBut, Pieces, Ordered, Apply, BytesOf, Rewritten, SeamsApart;
    ghost var v := Pieces(inode.order);
    var dobj := AcquireDobject(host, loid, inode, 1, inode.exts, []);
    assert Pieces(inode.order) == v;
    PadoWrite(dobj, offF, offDo, len);
  }

  /** TRUNCATE. */
  method ServeTruncate(inode: Inode, newsize: nat)
    requires Valid(inode)
    modifies inode, inode.exts, inode.dobjs
    ensures Valid(inode) && StateOf(inode) == Edited(old(StateOf(inode)), Truncate(newsize)).state
    ensures fresh(inode.exts - old(inode.exts)) && fresh(inode.dobjs - old(inode.dobjs))
  {
    hide Valid, FileOf, Apply, Pieces, Rewritten;
    PadoTruncate(inode, newsize);
  }

  lemma CloneProper(input: seq<Entry>, start: nat, len: nat)
    requires Admissible(CloneReq(input, start, len))
    ensures len > 0 && Ordered(Placed(UpToMark(input), start))
    ensures exists i :: 0 <= i < |input| && input[i].addr == END_MARK
  {
    hide Ordered, Placed, UpToMark;
  }

  /** CLONE_TO. */
  method ServeClone(inode: Inode, input: seq<Entry>, start: nat, len: nat) returns (passed: bool)
    requires Valid(inode) && Admissible(CloneReq(input, start, len)) && !inode.deleted
    modifies inode, inode.exts, inode.dobjs
    ensures WellLinked(inode)
    ensures StateOf(inode) == Edited(old(StateOf(inode)), Clone(UpToMark(input), start, start + len)).state
    ensures passed && Valid(inode)
      <==> Survives(old(Pieces(inode.order)), old(StateOf(inode)), CloneReq(input, start, len))
    ensures fresh(inode.exts - old(inode.exts)) && fresh(inode.dobjs - old(inode.dobjs))
  {
    hide Valid, FileOf, Apply, UpToMark, CloneFits, CloneStands, Ordered, Placed, Admissible, Proper, WellLinked;
    hide Pieces, Rewritten, Clipped;
    CloneProper(input, start, len);
    var n;
    passed, n := PadoClone(inode, input, start, start + len);
  }

  /** The requests that edit the layout. */
  method ServeEdit(inode: Inode, r: Request) returns (passed: bool)
    requires Valid(inode) && Admissible(r) && !inode.deleted && (r.WriteReq? || r.TruncateReq? || r.CloneReq?)
    modifies inode, inode.exts, inode.dobjs
    ensures WellLinked(inode) && StateOf(inode) == Step(old(StateOf(inode)), r).state
    ensures passed && Valid(inode) <==> Survives(old(Pieces(inode.order)), old(StateOf(inode)), r)
    ensures fresh(inode.exts - old(inode.exts)) && fresh(inode.dobjs - old(inode.dobjs))
  {
    hide Valid, WellLinked, FileOf, Apply, Released, UpToMark, Mapped, HoleIn, Admissible, Edited, Pieces;
    hide CloneStands, CloneFits;
    passed := true;
    match r
    case WriteReq(host, loid, offF, offDo, len) =>
      ServeWrite(inode, host, loid, offF, offDo, len);
      ValidLinked(inode);
    case TruncateReq(newsize) =>
      ServeTruncate(inode, newsize);
      ValidLinked(inode);
    case CloneReq(input, start, len) => passed := ServeClone(inode, input, start, len);
  }

  /** What holds of a served inode between requests. */
  ghost predicate Served(inode: Inode)
    reads inode, inode.exts, inode.dobjs, inode.order
  {
    Valid(inode) && Good(StateOf(inode))
  }

  lemma FitsSizeT(inode: Inode)
    requires Served(inode)
    ensures Addressable(Pieces(inode.order))
  {
    hide Look, Mid, Pieces;
    var v, f := Pieces(inode.order), FileOf(inode);
    forall i | 0 <= i < |v| ensures v[i].offDo + v[i].length <= W {
      var b := End(v[i]) - 1;
      assert v[i].length > 0;
      LookAt(v, i, b);
      assert b in f.bytes;
    }
  }

  ghost function Upto(end: nat, size: nat): nat { if end < size then end else size }

  /** READ_LAYOUT: a clone source that handed out its base object is shared from now on. */
  method ServeRead(inode: Inode, bino: nat, flag: bool, start: nat, len: nat) returns (reply: Reply, out: seq<Entry>)
    requires Served(inode) && !inode.deleted
    modifies inode`shared
    ensures Valid(inode)
    ensures var o := Step(old(StateOf(inode)), ReadReq(flag, start, len)); StateOf(inode) == o.state && reply == o.reply
    ensures Emitted(out, Pieces(inode.order), Addr(0, bino), flag, start, Upto(start + len, inode.size))
  {
    hide Good, Mid, Pieces, HasHole, HoleIn, BytesOf, Apply, Released, Mapped, Ordered, Emitted, Addressable;
    FitsSizeT(inode);
    HolesAre(FileOf(inode), Pieces(inode.order), start, start + len);
    var ret;
    out, ret := PadoRead(inode, bino, flag, start, start + len);
    if ret == BaseCloned { inode.shared := true; }
    reply := if ret == ReadReply.InvalidRange then Reply.InvalidRange else Success;
  }

  lemma Freed(inode: Inode)
    requires Valid(inode) && Good(StateOf(inode))
    ensures inode.deleted ==> inode.flayout == null && inode.numExts == 0 && inode.refcount == 0 && inode.doMap == map[]
  {
    hide Valid, FileOf;
    LayoutGone(inode);
  }

  /** The requests that release what they are told to: the inode and the answer are as the step says. */
  method ServeRelease(inode: Inode, r: Request) returns (reply: Reply, free: bool)
    requires Served(inode) && !inode.deleted && (r.RemoveReq? || r.DeleteReq? || r.UnrefReq?)
    modifies inode, inode.exts, inode.dobjs
    ensures Valid(inode) && Outcome(StateOf(inode), reply, free) == Step(old(StateOf(inode)), r)
    ensures fresh(inode.exts - old(inode.exts)) && fresh(inode.dobjs - old(inode.dobjs))
  {
    hide Pieces, Valid, Good, Apply, FileOf, Mapped, HoleIn;
    match r
    case RemoveReq(host, loid) =>
      if host == 0 && loid == 0 {
        reply := if inode.shared then Success else InvalidDobject;
        inode.shared := false;
      } else {
        reply := ServeRemove(inode, host, loid);
      }
      free := ReleaseInode(inode);
    case DeleteReq =>
      if inode.refcount > 0 {
        reply, free := IsUsed, false;
      } else {
        free := DeleteInode(inode);
        reply := Success;
      }
    case UnrefReq =>
      reply := Success;
      inode.refcount := inode.refcount - 1;
      if inode.refcount < 0 {
        reply := InvalidUnref;
        inode.refcount := 0;
      }
      free := ReleaseInode(inode);
  }

  /** The switch on the command. */
  method Dispatch(inode: Inode, bino: nat, r: Request)
    returns (passed: bool, reply: Reply, free: bool, out: seq<Entry>)
    requires Served(inode) && Admissible(r)
    modifies inode, inode.exts, inode.dobjs
    ensures WellLinked(inode) && Outcome(StateOf(inode), reply, free) == Step(old(StateOf(inode)), r)
    ensures passed && Valid(inode) <==> Survives(old(Pieces(inode.order)), old(StateOf(inode)), r)
    ensures fresh(inode.exts - old(inode.exts)) && fresh(inode.dobjs - old(inode.dobjs))
    ensures if r.ReadReq? && !old(inode.deleted)
      then Emitted(out, Pieces(inode.order), Addr(0, bino), r.flag, r.start, Upto(r.start + r.len, inode.size))
        && inode.size == old(inode.size) && Pieces(inode.order) == old(Pieces(inode.order))
      else out == []
  {
    hide Emitted, Pieces, Valid, WellLinked, Good, Apply, FileOf, Mapped, HoleIn, Admissible, Released;
    hide CloneStands, CloneFits, UpToMark;
    ValidLinked(inode);
    passed, free, out := true, false, [];
    if inode.deleted {
      reply := IsDeleted;
    } else {
      match r
      case ReadReq(flag, start, len) =>
        reply, out := ServeRead(inode, bino, flag, start, len);
        ValidLinked(inode);
      case OpenReq =>
        inode.refcount := inode.refcount + 1;
        reply := Success;
      case RemoveReq(_, _) =>
        reply, free := ServeRelease(inode, r);
        ValidLinked(inode);
      case DeleteReq =>
        reply, free := ServeRelease(inode, r);
        ValidLinked(inode);
      case UnrefReq =>
        reply, free := ServeRelease(inode, r);
        ValidLinked(inode);
      case _ =>
        passed := ServeEdit(inode, r);
        reply := Success;
    }
  }

  lemma GoodSized(s: State)
    requires Good(s)
    ensures Sized(s.file)
  {
  }

  lemma FreeStep(s: State, r: Request)
    requires Step(s, r).free
    ensures !r.CloneReq?
  {
    hide Apply, Mapped, HoleIn;
  }

  /** One request: the inode and the answer are as the step says; all assertions hold, those of the
      final print_inode included, exactly if the request survives; and an inode that is to be freed
      passes the tests of free_inode. */
  method Serve(inode: Inode, bino: nat, r: Request)
    returns (passed: bool, reply: Reply, free: bool, out: seq<Entry>)
    requires Served(inode) && Admissible(r)
    modifies inode, inode.exts, inode.dobjs
    ensures Outcome(StateOf(inode), reply, free) == Step(old(StateOf(inode)), r)
    ensures Answered(old(StateOf(inode)), r, reply)
    ensures passed <==> Survives(old(Pieces(inode.order)), old(StateOf(inode)), r)
    ensures passed ==> Served(inode)
    ensures fresh(inode.exts - old(inode.exts)) && fresh(inode.dobjs - old(inode.dobjs))
    ensures free ==> inode.flayout == null && inode.numExts == 0 && inode.refcount == 0 && inode.doMap == map[]
    ensures if r.ReadReq? && !old(inode.deleted)
      then Emitted(out, Pieces(inode.order), Addr(0, bino), r.flag, r.start, Upto(r.start + r.len, inode.size))
        && inode.size == old(inode.size) && Pieces(inode.order) == old(Pieces(inode.order))
      else out == []
  {
    hide Emitted, Pieces, Valid, WellLinked, Good, Apply, FileOf, Step, Admissible, Survives, Answered;
    AnswerIs(StateOf(inode), r);
    StepGood(StateOf(inode), r);
    ghost var s := StateOf(inode);
    passed, reply, free, out := Dispatch(inode, bino, r);
    GoodSized(StateOf(inode));
    if free {
      FreeStep(s, r);
      SafeRequest(old(Pieces(inode.order)), s, r);
      Freed(inode);
    }
    var printed := PrintInode(inode);
    passed := passed && printed;
  }

  lemma Born(inode: Inode, size: nat)
    requires inode.size == size && inode.version == 0 && inode.refcount == 0 && !inode.shared && !inode.deleted
    requires inode.flayout == null && inode.numExts == 0 && inode.doMap == map[]
    requires inode.shape == Nil && inode.order == [] && inode.exts == {} && inode.dobjs == {}
    ensures Served(inode) && StateOf(inode) == Newborn(size)
  {
    assert BytesOf([]) == imap[];
    assert SetOf<Extent>([]) == {};
  }

  lemma LayoutOf(inode: Inode)
    requires Served(inode)
    ensures Ordered(Pieces(inode.order)) && BytesOf(Pieces(inode.order)) == StateOf(inode).file.bytes
  {
    hide Mid, Pieces, Ordered, Good;
  }

  /** vs are the layouts that the first requests found, and each of the first n requests survived. */
  ghost predicate History(vs: seq<seq<Piece>>, n: nat, s: State, rs: seq<Request>) {
    && n <= |vs| <= |rs|
    && (forall i | 0 <= i < |vs| :: Ordered(vs[i]) && BytesOf(vs[i]) == Serves(s, rs[..i]).file.bytes)
    && forall i | 0 <= i < n :: Survives(vs[i], Serves(s, rs[..i]), rs[i])
  }

  /** The first n requests are answered as the states they find say. */
  ghost predicate Replied(s: State, rs: seq<Request>, answers: seq<Reply>) {
    |answers| <= |rs| && forall i | 0 <= i < |answers| :: Answered(Serves(s, rs[..i]), rs[i], answers[i])
  }

  lemma RepliedNext(s: State, rs: seq<Request>, answers: seq<Reply>, reply: Reply)
    requires Replied(s, rs, answers) && |answers| < |rs|
    requires Answered(Serves(s, rs[..|answers|]), rs[|answers|], reply)
    ensures Replied(s, rs, answers + [reply])
  {
    hide Answered, Serves;
  }

  lemma NoHistory(s: State, rs: seq<Request>)
    ensures History([], 0, s, rs) && Serves(s, rs[..0]) == s && Replied(s, rs, [])
  {
  }

  lemma ServesNext(s: State, rs: seq<Request>, n: nat)
    requires n < |rs|
    ensures Serves(s, rs[..n + 1]) == Step(Serves(s, rs[..n]), rs[n]).state
  {
    hide Step;
    assert rs[..n + 1][..n] == rs[..n];
  }

  /** One more request was served. */
  lemma HistoryNext(vs: seq<seq<Piece>>, n: nat, s: State, rs: seq<Request>, v: seq<Piece>)
    requires History(vs, n, s, rs) && |vs| == n < |rs|
    requires Ordered(v) && BytesOf(v) == Serves(s, rs[..n]).file.bytes
    ensures History(vs + [v], n, s, rs)
    ensures Survives(v, Serves(s, rs[..n]), rs[n]) ==> History(vs + [v], n + 1, s, rs)
  {
    hide Ordered, BytesOf, Survives, Serves;
  }

  /** A file's whole life: the first n of any sequence of requests are served, the layout is well
      formed and the file is as the sequence of steps says; and either these are all, or the next one
      trips an assertion.  vs are the layouts the requests found. */
  method Live(ino: nat, bino: nat, size: nat, rs: seq<Request>)
    returns (inode: Inode, n: nat, answers: seq<Reply>, ghost vs: seq<seq<Piece>>)
    requires forall i | 0 <= i < |rs| :: Admissible(rs[i])
    ensures fresh(inode) && History(vs, n, Newborn(size), rs) && |answers| == n && Replied(Newborn(size), rs, answers)
    ensures n < |rs| ==> |vs| == n + 1 && !Survives(vs[n], Serves(Newborn(size), rs[..n]), rs[n])
    ensures n == |rs| ==> Served(inode) && StateOf(inode) == Serves(Newborn(size), rs)
  {
    hide Served, StateOf, Serves, Step, Admissible, Survives, Ordered, BytesOf, Pieces, History;
    hide Replied, Answered;
    inode := new Inode(ino, size);
    Born(inode, size);
    NoHistory(Newborn(size), rs);
    n, answers, vs := 0, [], [];
    while n < |rs|
      invariant n <= |rs| && |vs| == |answers| == n && Replied(Newborn(size), rs, answers)
      invariant fresh(inode) && fresh(inode.exts) && fresh(inode.dobjs)
      invariant Served(inode) && StateOf(inode) == Serves(Newborn(size), rs[..n]) && History(vs, n, Newborn(size), rs)
    {
      LayoutOf(inode);
      HistoryNext(vs, n, Newborn(size), rs, Pieces(inode.order));
      ServesNext(Newborn(size), rs, n);
      vs := vs + [Pieces(inode.order)];
      var passed, reply, free, out := Serve(inode, bino, rs[n]);
      if !passed { return; }
      RepliedNext(Newborn(size), rs, answers, reply);
      n, answers := n + 1, answers + [reply];
    }
    assert rs[..n] == rs;
  }

  lemma StopAdmissible(list: seq<Entry>, rs: seq<Request>)
    requires list == [Entry(Addr(2, 2), 4, 0, 2)] && |rs| == 3
    requires rs[0] == WriteReq(1, 1, 0, 0, 4) && rs[1] == WriteReq(2, 2, 4, 0, 4)
    requires rs[2] == CloneReq(list + [Entry(END_MARK, 0, 0, 0)], 0, 4)
    ensures forall i | 0 <= i < 3 :: Admissible(rs[i])
    ensures UpToMark(rs[2].input) == list
  {
    hide Ordered;
    MarkedList(list, Entry(END_MARK, 0, 0, 0));
    var p := Piece(Addr(2, 2), 4, 0, 2);
    assert Placed(list, 0) == [p];
    PairOrdered(p, Piece(Addr(2, 2), 6, 0, 1));
    assert rs[2].input[1].addr == END_MARK;
  }

  /** What a write says of one byte. */
  lemma WriteByte(s: State, host: nat, loid: nat, offF: nat, offDo: nat, len: nat, b: int)
    requires !s.deleted
    ensures var u := Step(s, WriteReq(host, loid, offF, offDo, len)).state;
      && !u.deleted
      && (offF <= b < offF + len ==> b in u.file.bytes && u.file.bytes[b] == Loc(Addr(host, loid), offDo + (b - offF)))
      && (!(offF <= b < offF + len) && b in s.file.bytes ==> b in u.file.bytes && u.file.bytes[b] == s.file.bytes[b])
  {
    hide Look;
    var p := Piece(Addr(host, loid), offF, offDo, len);
    LookHead(p, [], b);
    assert [p] + [] == [p];
  }

  lemma StopAtClone(v: seq<Piece>, list: seq<Entry>, rs: seq<Request>)
    requires list == [Entry(Addr(2, 2), 4, 0, 2)] && |rs| == 3
    requires rs[0] == WriteReq(1, 1, 0, 0, 4) && rs[1] == WriteReq(2, 2, 4, 0, 4)
    requires rs[2].CloneReq? && UpToMark(rs[2].input) == list && rs[2].start == 0 && rs[2].len == 4
    requires Ordered(v) && BytesOf(v) == Serves(Newborn(0), rs[..2]).file.bytes
    ensures !Survives(v, Serves(Newborn(0), rs[..2]), rs[2])
  {
    hide Ordered, CloneStands, CloneFits, UpToMark, Look, Serves, Step;
    var s0, s1 := Newborn(0), Serves(Newborn(0), rs[..1]);
    NoHistory(s0, rs);
    ServesNext(s0, rs, 0);
    ServesNext(s0, rs, 1);
    WriteByte(s0, 1, 1, 0, 0, 4, 0);
    WriteByte(s1, 2, 2, 4, 0, 4, 0);
    WriteByte(s1, 2, 2, 4, 0, 4, 4);
    assert 0 in BytesOf(v) && 4 in BytesOf(v);
    StoppingLists(v);
  }

  /** Two writes and a clone whose list fits: the third request trips an assertion. */
  method StoppedRun(ino: nat, bino: nat) returns (inode: Inode, n: nat)
    ensures n == 2
  {
    hide Served, Survives, BytesOf, Ordered, Look;
    var list := [Entry(Addr(2, 2), 4, 0, 2)];
    var rs := [WriteReq(1, 1, 0, 0, 4), WriteReq(2, 2, 4, 0, 4), CloneReq(list + [Entry(END_MARK, 0, 0, 0)], 0, 4)];
    StopAdmissible(list, rs);
    var answers;
    ghost var vs;
    inode, n, answers, vs := Live(ino, bino, 0, rs);
    SafeRequest(vs[0], Serves(Newborn(0), rs[..0]), rs[0]);
    if n > 0 { SafeRequest(vs[1], Serves(Newborn(0), rs[..1]), rs[1]); }
    if n > 1 { StopAtClone(vs[2], list, rs); }
  }
}
