/** do_backup and pado_getinode_all of incont.c, and do_restore of inserver.c. */
module Backups {
  import opened Sequences
  import opened Extents
  import opened Edits
  import opened Layouts
  import opened ByteMap
  import opened Rewrites
  import opened Replacing
  import opened FileSpec
  import opened Files
  import opened Reading
  import opened Balance

  /** The stream: for each inode its attributes and the number of extents, then the extents. */
  datatype Item =
    | Head(ino: nat, size: nat, version: nat, shared: bool, deleted: bool, dlocked: bool, num: int)
    | Ext(host: nat, loid: nat, offF: nat, offDo: nat, length: nat)

  /** What is saved of an inode. */
  datatype Image = Image(ino: nat, size: nat, version: nat, shared: bool, deleted: bool, dlocked: bool,
      pieces: seq<Piece>)

  ghost function ImageOf(inode: Inode): Image
    reads inode, inode.order`offF, inode.order`offDo, inode.order`length
  {
    Image(inode.ino, inode.size, inode.version, inode.shared, inode.deleted, inode.dlocked, Pieces(inode.order))
  }

  ghost function HeadOf(m: Image): Item {
    Head(m.ino, m.size, m.version, m.shared, m.deleted, m.dlocked, |m.pieces|)
  }

  ghost function ExtOf(p: Piece): Item { Ext(p.addr.host, p.addr.loid, p.offF, p.offDo, p.length) }

  ghost function ExtsOf(v: seq<Piece>): (s: seq<Item>)
    ensures |s| == |v| && forall i | 0 <= i < |s| :: s[i] == ExtOf(v[i])
  {
    seq(|v|, i requires 0 <= i < |v| => ExtOf(v[i]))
  }

  /** An inode on the stream. */
  ghost function Saved(m: Image): seq<Item> {
    [HeadOf(m)] + ExtsOf(m.pieces)
  }

  ghost function StreamOf(ms: seq<Image>): seq<Item> {
    if ms == [] then [] else StreamOf(ms[..|ms| - 1]) + Saved(ms[|ms| - 1])
  }

  /** Deleted inodes are left out. */
  ghost function Kept(ms: seq<Image>): (s: seq<Image>)
    ensures forall m :: m in s <==> m in ms && !m.deleted
  {
    if ms == [] then []
    else Kept(ms[..|ms| - 1]) + if ms[|ms| - 1].deleted then [] else [ms[|ms| - 1]]
  }

  /** An inode as create_inode makes it. */
  ghost predicate Newborn(inode: Inode)
    reads inode
  {
    && inode.flayout == null && inode.numExts == 0 && inode.doMap == map[] && inode.refcount == 0 && inode.version == 0
    && inode.shape == Nil && inode.order == [] && inode.exts == {} && inode.dobjs == {}
    && !inode.shared && !inode.deleted && !inode.dlocked
  }

  /** inode_map: the inodes of a server by number, and the numbers in the order HASH_ITER
      visits them, which is that of insertion. */
  class Container {
    var inodes: map<nat, Inode>
    var order: seq<nat>

    ghost predicate Listed()
      reads this
    {
      && NoDup(order) && SetOf(order) == inodes.Keys
      && forall n | n in inodes :: inodes[n].ino == n
    }

    constructor ()
      ensures Listed() && order == [] && inodes == map[]
    {
      inodes, order := map[], [];
    }

    /** create_inode: an inode of that number that is not deleted is returned as it is; a
        deleted one gives way to a new one. */
    method CreateInode(ino: nat, size: nat) returns (inode: Inode, created: bool)
      requires Listed()
      modifies this
      ensures Listed() && ino in inodes && inodes[ino] == inode
      ensures created <==> !(ino in old(inodes) && !old(inodes)[ino].deleted)
      ensures !created ==> inodes == old(inodes) && order == old(order)
      ensures created ==> fresh(inode) && inode.size == size && Newborn(inode) && inodes == old(inodes)[ino := inode]
      ensures ino !in old(inodes) ==> order == old(order) + [ino]
    {
      if ino in inodes && inodes[ino].deleted {
        Unlist(ino);
      } else if ino in inodes {
        return inodes[ino], false;
      }
      inode := new Inode(ino, size);
      created := true;
      inodes := inodes[ino := inode];
      order := order + [ino];
      assert SetOf(order) == inodes.Keys;
    }

    /** HASH_DELETE of a number. */
    method Unlist(ino: nat)
      requires Listed() && ino in inodes
      modifies this
      ensures Listed() && inodes == old(inodes) - {ino}
    {
      var i := 0;
      assert ino in SetOf(order);
      while order[i] != ino
        invariant i < |order| && ino in order[i..]
        decreases |order| - i
      {
        assert order[i..] == [order[i]] + order[i + 1..];
        i := i + 1;
      }
      WithoutAt(order, i);
      order := order[..i] + order[i + 1..];
      inodes := inodes - {ino};
    }
  }

  /** ms pictures the inodes of a server, in its order. */
  ghost predicate Pictured(c: Container, ms: seq<Image>)
    reads *
  {
    && c.Listed() && |ms| == |c.order|
    && forall i {:trigger ms[i]} | 0 <= i < |ms| ::
        c.order[i] in c.inodes && ms[i] == ImageOf(c.inodes[c.order[i]])
  }

  /** Numbers do not repeat. */
  ghost predicate Numbered(ms: seq<Image>) {
    forall i, j | 0 <= i < j < |ms| :: ms[i].ino != ms[j].ino
  }

  ghost function Numbers(ms: seq<Image>): (ns: seq<nat>)
    ensures |ns| == |ms| && forall i | 0 <= i < |ns| :: ns[i] == ms[i].ino
  {
    seq(|ms|, i requires 0 <= i < |ms| => ms[i].ino)
  }

  /** The first extent that ends after 0 is the first extent. */
  lemma FirstIsFirst(v: seq<Piece>, k: nat)
    requires Ordered(v) && FirstAfter(v, 0, k)
    ensures k == 0
  {
    assert k > 0 ==> v[0].length > 0;
  }

  lemma StartFacts(inode: Inode)
    requires Valid(inode)
    ensures Mid(inode, inode.exts, []) && Ordered(Pieces(inode.order)) && inode.numExts == |inode.order|
    ensures TreeOk(inode, inode.exts)
  {
    hide Mid, TreeOk, Pieces, Ordered;
    TreeSize(inode);
    MidTree(inode, inode.exts, []);
  }

  lemma ExtsMore(v: seq<Piece>, k: nat)
    requires k < |v|
    ensures ExtsOf(v)[..k + 1] == ExtsOf(v)[..k] + [ExtOf(v[k])]
  {
  }

  /** The extent visited in round k and the items sent by then. */
  lemma ExtentSent(inode: Inode, k: nat)
    requires Mid(inode, inode.exts, []) && k < |inode.order|
    ensures var v, e := Pieces(inode.order), inode.order[k];
      && e.next == ElemOrNull(inode.order, k + 1)
      && ExtsOf(v)[..k + 1] == ExtsOf(v)[..k] + [Ext(e.dobj.addr.host, e.dobj.addr.loid, e.offF, e.offDo, e.length)]
  {
    hide Mid, ExtsOf;
    Neighbours(inode, inode.exts, [], k);
    ExtsMore(Pieces(inode.order), k);
  }

  /** The extents of the layout, from the first one on. */
  method SendExtents(inode: Inode, first: Extent?) returns (out: seq<Item>)
    requires Mid(inode, inode.exts, []) && first == ElemOrNull(inode.order, 0)
    ensures out == ExtsOf(Pieces(inode.order))
  {
    hide Mid, Pieces, ExtsOf;
    ghost var s := ExtsOf(Pieces(inode.order));
    out := [];
    var cur, k: nat := first, 0;
    while cur != null
      invariant k <= |inode.order| && cur == ElemOrNull(inode.order, k) && out == s[..k]
      decreases |inode.order| - k
    {
      ExtentSent(inode, k);
      out := out + [Ext(cur.dobj.addr.host, cur.dobj.addr.loid, cur.offF, cur.offDo, cur.length)];
      cur, k := cur.next, k + 1;
    }
    assert s[..k] == s;
  }

  /** pado_getinode_all. */
  method GetInodeAll(inode: Inode) returns (out: seq<Item>)
    requires Valid(inode)
    ensures out == Saved(ImageOf(inode))
  {
    hide Valid, Mid, TreeOk, Pieces, Ordered, FirstAfter, LinearScan, ExtsOf;
    StartFacts(inode);
    OrderedSorted(Pieces(inode.order));
    var cur: Extent?;
    ghost var k: nat;
    ghost var rounds;
    cur, k, rounds := FindStartExtent(inode, 0, inode.exts);
    FirstIsFirst(Pieces(inode.order), k);
    var exts := SendExtents(inode, cur);
    var head := Head(inode.ino, inode.size, inode.version, inode.shared, inode.deleted, inode.dlocked, inode.numExts);
    out := [head] + exts;
  }

  lemma SameFlag(inode: Inode)
    ensures ImageOf(inode).deleted == inode.deleted
  {
  }

  lemma NothingKept(ms: seq<Image>)
    ensures StreamOf(Kept(ms[..0])) == []
  {
  }

  lemma StreamMore(s: seq<Image>, m: Image)
    ensures StreamOf(s + [m]) == StreamOf(s) + Saved(m) && s + [] == s && StreamOf(s) + [] == StreamOf(s)
  {
    hide Saved;
    assert (s + [m])[..|s|] == s;
  }

  lemma KeptNext(ms: seq<Image>, k: nat)
    requires k < |ms|
    ensures StreamOf(Kept(ms[..k + 1])) == StreamOf(Kept(ms[..k])) + if ms[k].deleted then [] else Saved(ms[k])
  {
    hide StreamOf, Saved;
    var a := ms[..k + 1];
    assert a[..k] == ms[..k] && a[k] == ms[k] && a != [];
    StreamMore(Kept(ms[..k]), ms[k]);
    assert Kept(a) == Kept(a[..|a| - 1]) + if a[|a| - 1].deleted then [] else [a[|a| - 1]];
  }

  /** do_backup. */
  method DoBackup(c: Container, ghost ms: seq<Image>) returns (out: seq<Item>)
    requires Pictured(c, ms) && forall n | n in c.inodes :: Valid(c.inodes[n])
    ensures out == StreamOf(Kept(ms))
  {
    hide Valid, Saved, StreamOf, Kept, ImageOf;
    out := [];
    NothingKept(ms);
    for k := 0 to |c.order|
      invariant c.Listed() && |ms| == |c.order| && forall n | n in c.inodes :: Valid(c.inodes[n])
      invariant forall i {:trigger ms[i]} | 0 <= i < |ms| ::
        c.order[i] in c.inodes && ms[i] == ImageOf(c.inodes[c.order[i]])
      invariant out == StreamOf(Kept(ms[..k]))
    {
      assert ms[k] == ImageOf(c.inodes[c.order[k]]);
      var cur := c.inodes[c.order[k]];
      KeptNext(ms, k);
      SameFlag(cur);
      if !cur.deleted {
        var one := GetInodeAll(cur);
        out := out + one;
      }
    }
    assert ms[..|c.order|] == ms;
  }

  // ---- restore

  lemma NoneBefore(v: seq<Piece>, k: nat, b: int)
    requires Ordered(v) && k < |v| && v[k].offF <= b
    ensures Look(v[..k], b).None?
  {
    LookNone(v[..k], b);
  }

  /** Writing the k-th piece after those before it. */
  lemma WriteNext(v: seq<Piece>, k: nat)
    requires Ordered(v) && k < |v|
    ensures Over(BytesOf(v[..k]), [v[k]], v[k].offF, End(v[k])) == BytesOf(v[..k + 1])
  {
    hide Look, Ordered;
    forall b: int
      ensures Look(v[..k + 1], b) == if v[k].offF <= b < End(v[k]) then Look([v[k]], b) else Look(v[..k], b)
    {
      assert v[..k + 1] == v[..k] + [v[k]] && [v[k]] == [v[k]] + [];
      LookConcat(v[..k], [v[k]], b);
      LookHead(v[k], [], b);
      LookNone([], b);
      if Covers(v[k], b) { NoneBefore(v, k, b); }
    }
  }

  /** An inode restored from an image: same number, size, flags and byte map; each
      extent written back counts as a version. */
  ghost predicate Restored(r: Inode, m: Image)
    reads r, r.order`offF, r.order`offDo, r.order`length
  {
    && r.ino == m.ino && FileOf(r) == File(m.size, BytesOf(m.pieces)) && r.refcount == 0
    && r.shared == m.shared && r.deleted == m.deleted && r.dlocked == m.dlocked
    && r.version == m.version + |m.pieces|
  }

  /** An image whose layout lies inside the file. */
  ghost predicate Sound(m: Image) {
    Ordered(m.pieces) && Within(m.pieces, 0, m.size)
  }

  /** The first i extents of an image are back. */
  ghost predicate Partway(r: Inode, m: Image, i: nat)
    reads r, r.exts, r.dobjs, r.order
  {
    && Valid(r) && i <= |m.pieces| && FileOf(r) == File(m.size, BytesOf(m.pieces[..i])) && r.refcount == 0
    && r.shared == m.shared && r.deleted == m.deleted && r.dlocked == m.dlocked
    && r.version == m.version + i && r.ino == m.ino
  }

  lemma PieceInside(m: Image, i: nat)
    requires Sound(m) && i < |m.pieces|
    ensures m.pieces[i].length > 0 && End(m.pieces[i]) <= m.size
  {
  }

  /** One extent of do_restore. */
  method WriteBack(inode: Inode, host: nat, loid: nat, offF: nat, offDo: nat, length: nat, ghost m: Image, ghost i: nat)
    requires Partway(inode, m, i) && Sound(m) && i < |m.pieces|
    requires m.pieces[i] == Piece(Addr(host, loid), offF, offDo, length)
    modifies inode, inode.exts, inode.dobjs
    ensures Partway(inode, m, i + 1)
    ensures fresh(inode.exts - old(inode.exts)) && fresh(inode.dobjs - old(inode.dobjs))
  {
    hide Mid, MidBut, Pieces, Ordered, BytesOf, Over, Within, Rewritten, SeamsApart;
    PieceInside(m, i);
    WriteNext(m.pieces, i);
    ghost var v := Pieces(inode.order);
    var dobj := AcquireDobject(host, loid, inode, 1, inode.exts, []);
    assert Pieces(inode.order) == v;
    PadoWrite(dobj, offF, offDo, length);
  }

  lemma SavedAt(input: seq<Item>, at: nat, m: Image)
    requires at + |Saved(m)| <= |input| && input[at..at + |Saved(m)|] == Saved(m)
    ensures input[at] == HeadOf(m) && |Saved(m)| == 1 + |m.pieces|
    ensures forall i | 0 <= i < |m.pieces| :: input[at + 1 + i] == ExtOf(m.pieces[i])
  {
    var s := input[at..at + |Saved(m)|];
    assert s[0] == input[at];
    forall i | 0 <= i < |m.pieces|
      ensures input[at + 1 + i] == ExtOf(m.pieces[i])
    {
      assert s[1 + i] == input[at + 1 + i];
    }
  }

  /** The extents after the head at `at` are written to its inode. */
  method WriteExtents(inode: Inode, input: seq<Item>, at: nat, ghost m: Image) returns (next: nat)
    requires Partway(inode, m, 0) && Sound(m)
    requires at + |Saved(m)| <= |input| && input[at..at + |Saved(m)|] == Saved(m)
    modifies inode, inode.exts, inode.dobjs
    ensures next == at + |Saved(m)| && Partway(inode, m, |m.pieces|)
    ensures fresh(inode.exts - old(inode.exts)) && fresh(inode.dobjs - old(inode.dobjs))
  {
    hide Partway, Sound, Saved;
    SavedAt(input, at, m);
    next := at + 1;
    for i := 0 to input[at].num
      invariant next == at + 1 + i && Partway(inode, m, i)
      invariant fresh(inode.exts - old(inode.exts)) && fresh(inode.dobjs - old(inode.dobjs))
    {
      var e := input[next];
      assert e == ExtOf(m.pieces[i]);
      WriteBack(inode, e.host, e.loid, e.offF, e.offDo, e.length, m, i);
      next := next + 1;
    }
  }

  lemma NothingYet(inode: Inode, m: Image)
    requires inode.flayout == null && inode.numExts == 0 && inode.doMap == map[]
    requires inode.shape == Nil && inode.order == [] && inode.exts == {} && inode.dobjs == {}
    requires inode.ino == m.ino && inode.size == m.size && inode.refcount == 0 && inode.version == m.version
    requires inode.shared == m.shared && inode.deleted == m.deleted && inode.dlocked == m.dlocked
    ensures Partway(inode, m, 0)
  {
    hide Valid, BytesOf;
    EmptyInode(inode);
    assert m.pieces[..0] == [];
  }

  /** A new inode with the attributes of a head. */
  method Revive(c: Container, h: Item, ghost m: Image) returns (inode: Inode)
    requires c.Listed() && h == HeadOf(m) && m.ino !in c.inodes
    modifies c
    ensures c.Listed() && c.inodes == old(c.inodes)[m.ino := inode] && c.order == old(c.order) + [m.ino]
    ensures fresh(inode) && fresh(inode.exts) && fresh(inode.dobjs) && Partway(inode, m, 0)
  {
    hide Partway, NoDup;
    var created;
    inode, created := c.CreateInode(h.ino, h.size);
    inode.shared, inode.deleted, inode.dlocked := h.shared, h.deleted, h.dlocked;
    inode.refcount, inode.version := 0, h.version;
    NothingYet(inode, m);
  }

  lemma AllBack(r: Inode, m: Image)
    requires Partway(r, m, |m.pieces|)
    ensures Valid(r) && Restored(r, m)
  {
    assert m.pieces[..|m.pieces|] == m.pieces;
  }

  lemma SoundSized(m: Image)
    requires Sound(m)
    ensures Sized(File(m.size, BytesOf(m.pieces)))
  {
    hide Look, Ordered;
    forall b: int | Look(m.pieces, b).Some? ensures 0 <= b < m.size { LookCovers(m.pieces, b); }
  }

  lemma RestoredFile(r: Inode, m: Image)
    requires Restored(r, m)
    ensures FileOf(r) == File(m.size, BytesOf(m.pieces))
  {
  }

  /** One inode of do_restore: the item at `at` is its head; print_inode passes at the end. */
  method RestoreOne(c: Container, input: seq<Item>, at: nat, ghost m: Image) returns (inode: Inode, next: nat)
    requires c.Listed() && m.ino !in c.inodes
    requires Sound(m) && at + |Saved(m)| <= |input| && input[at..at + |Saved(m)|] == Saved(m)
    modifies c
    ensures next == at + |Saved(m)| && fresh(inode) && fresh(inode.exts) && fresh(inode.dobjs)
    ensures c.Listed() && c.inodes == old(c.inodes)[m.ino := inode] && c.order == old(c.order) + [m.ino]
    ensures Valid(inode) && Restored(inode, m)
  {
    hide Partway, Restored, Sound, Saved, Valid, WellLinked, FileOf, BytesOf, Container.Listed;
    SavedAt(input, at, m);
    inode := Revive(c, input[at], m);
    next := WriteExtents(inode, input, at, m);
    AllBack(inode, m);
    ValidLinked(inode);
    SoundSized(m);
    RestoredFile(inode, m);
    var printed := PrintInode(inode);
    assert printed;
  }

  /** The stream of the first k inodes starts the whole stream. */
  lemma {:induction false} StreamPrefix(ms: seq<Image>, k: nat)
    requires k <= |ms|
    ensures |StreamOf(ms[..k])| <= |StreamOf(ms)| && StreamOf(ms)[..|StreamOf(ms[..k])|] == StreamOf(ms[..k])
  {
    hide Saved;
    if k < |ms| {
      var init := ms[..|ms| - 1];
      StreamPrefix(init, k);
      assert init[..k] == ms[..k];
    } else {
      assert ms[..k] == ms;
    }
  }

  lemma SavedSome(m: Image)
    ensures |Saved(m)| > 0
  {
  }

  lemma StreamSplit(ms: seq<Image>, k: nat)
    requires k <= |ms|
    ensures var at, s := |StreamOf(ms[..k])|, StreamOf(ms);
      && at <= |s| && (k == |ms| <==> at == |s|)
      && (k < |ms| ==>
        && at + |Saved(ms[k])| <= |s| && s[at..at + |Saved(ms[k])|] == Saved(ms[k])
        && |StreamOf(ms[..k + 1])| == at + |Saved(ms[k])|)
  {
    hide StreamOf, Saved;
    StreamPrefix(ms, k);
    if k == |ms| {
      assert ms[..k] == ms;
    } else {
      var a, x, s := StreamOf(ms[..k]), Saved(ms[k]), StreamOf(ms);
      StreamPrefix(ms, k + 1);
      assert ms[..k + 1] == ms[..k] + [ms[k]];
      StreamMore(ms[..k], ms[k]);
      SavedSome(ms[k]);
      assert s[..|a| + |x|] == a + x;
      assert s[|a|..|a| + |x|] == s[..|a| + |x|][|a|..] == x;
    }
  }

  /** The inodes of a server are those of the images, in order. */
  ghost predicate Holds(c: Container, ms: seq<Image>)
    reads *
  {
    && c.Listed() && c.order == Numbers(ms)
    && forall i {:trigger ms[i]} | 0 <= i < |ms| ::
        ms[i].ino in c.inodes && Valid(c.inodes[ms[i].ino]) && Restored(c.inodes[ms[i].ino], ms[i])
  }

  lemma NotYet(c: Container, ms: seq<Image>, k: nat)
    requires Numbered(ms) && k < |ms| && c.Listed() && c.order == Numbers(ms[..k])
    ensures ms[k].ino !in c.inodes && Numbers(ms[..k + 1]) == Numbers(ms[..k]) + [ms[k].ino]
    ensures forall i {:trigger ms[i]} | 0 <= i < k :: ms[i].ino != ms[k].ino
  {
    forall n | n in c.order ensures n != ms[k].ino {
      var i :| 0 <= i < |c.order| && c.order[i] == n;
      assert n == ms[i].ino;
    }
  }

  /** One more inode is back. */
  lemma HoldsMore(c: Container, ms: seq<Image>, k: nat)
    requires k < |ms| && c.Listed() && c.order == Numbers(ms[..k]) + [ms[k].ino]
    requires forall i {:trigger ms[i]} | 0 <= i <= k ::
      ms[i].ino in c.inodes && Valid(c.inodes[ms[i].ino]) && Restored(c.inodes[ms[i].ino], ms[i])
    ensures Holds(c, ms[..k + 1])
  {
    hide Valid, Restored;
    var s := ms[..k + 1];
    assert c.order == Numbers(s);
    forall i | 0 <= i < |s|
      ensures s[i].ino in c.inodes && Valid(c.inodes[s[i].ino]) && Restored(c.inodes[s[i].ino], s[i])
    {
      assert s[i] == ms[i];
    }
  }

  lemma HoldsAt(c: Container, ms: seq<Image>, k: nat)
    requires k < |ms| && Holds(c, ms[..k])
    ensures c.Listed() && c.order == Numbers(ms[..k])
    ensures forall i {:trigger ms[i]} | 0 <= i < k ::
      ms[i].ino in c.inodes && Valid(c.inodes[ms[i].ino]) && Restored(c.inodes[ms[i].ino], ms[i])
  {
    hide Valid, Restored, Container.Listed, Numbers;
    forall i {:trigger ms[i]} | 0 <= i < k
      ensures ms[i].ino in c.inodes && Valid(c.inodes[ms[i].ino]) && Restored(c.inodes[ms[i].ino], ms[i])
    {
      assert ms[..k][i] == ms[i];
    }
  }

  /** The next inode of the stream comes back. */
  method RestoreNext(c: Container, input: seq<Item>, at: nat, ghost ms: seq<Image>, ghost k: nat) returns (next: nat)
    requires Numbered(ms) && k < |ms| && Holds(c, ms[..k]) && Sound(ms[k])
    requires at + |Saved(ms[k])| <= |input| && input[at..at + |Saved(ms[k])|] == Saved(ms[k])
    modifies c
    ensures Holds(c, ms[..k + 1]) && next == at + |Saved(ms[k])|
  {
    hide Holds, Valid, Restored, Sound, Saved, Container.Listed, Numbers, Numbered;
    HoldsAt(c, ms, k);
    NotYet(c, ms, k);
    var inode;
    inode, next := RestoreOne(c, input, at, ms[k]);
    HoldsMore(c, ms, k);
  }

  lemma NoneHeld(c: Container, ms: seq<Image>)
    requires c.Listed() && c.order == []
    ensures Holds(c, ms[..0]) && StreamOf(ms[..0]) == []
  {
  }

  /** do_restore into an empty server, up to the end of a stream that repeats no number. */
  method DoRestore(input: seq<Item>, ghost ms: seq<Image>) returns (c: Container)
    requires input == StreamOf(ms) && Numbered(ms) && forall i | 0 <= i < |ms| :: Sound(ms[i])
    ensures fresh(c) && Holds(c, ms)
  {
    hide Holds, Sound, Saved, StreamOf, Numbered;
    c := new Container();
    ghost var k := 0;
    var at := 0;
    NoneHeld(c, ms);
    while at < |input|
      invariant fresh(c) && k <= |ms| && at == |StreamOf(ms[..k])| <= |input| && Holds(c, ms[..k])
      decreases |input| - at
    {
      StreamSplit(ms, k);
      SavedSome(ms[k]);
      at := RestoreNext(c, input, at, ms, k);
      k := k + 1;
    }
    StreamSplit(ms, k);
    assert ms[..k] == ms;
  }

  lemma SoundAtRest(inode: Inode)
    requires Valid(inode) && Sized(FileOf(inode))
    ensures Sound(ImageOf(inode))
  {
    hide Mid, Pieces, Look;
    var v, f := Pieces(inode.order), FileOf(inode);
    forall i | 0 <= i < |v| ensures End(v[i]) <= inode.size {
      assert v[i].length > 0;
      LookAt(v, i, End(v[i]) - 1);
      assert End(v[i]) - 1 in f.bytes;
    }
  }

  lemma PicturedNumbers(c: Container, ms: seq<Image>)
    requires Pictured(c, ms)
    ensures Numbered(ms)
  {
    forall i, j | 0 <= i < j < |ms| ensures ms[i].ino != ms[j].ino {
      assert ms[i].ino == c.order[i] && ms[j].ino == c.order[j];
    }
  }

  lemma {:induction false} KeptNumbered(ms: seq<Image>)
    requires Numbered(ms)
    ensures Numbered(Kept(ms))
  {
    if ms != [] {
      var most, last := ms[..|ms| - 1], ms[|ms| - 1];
      KeptNumbered(most);
      var k := Kept(most);
      forall i | 0 <= i < |k| ensures k[i].ino != last.ino {
        assert k[i] in most;
        var j :| 0 <= j < |most| && most[j] == k[i];
        assert ms[j].ino != last.ino;
      }
    }
  }

  lemma HeldNumbers(d: Container, ms: seq<Image>)
    requires Holds(d, Kept(ms))
    ensures forall n :: n in d.inodes <==> exists m :: m in ms && m.ino == n && !m.deleted
  {
    hide Kept, Restored, Valid;
    var k := Kept(ms);
    forall n | n in d.inodes ensures exists m :: m in ms && m.ino == n && !m.deleted {
      var i :| 0 <= i < |d.order| && d.order[i] == n;
      assert k[i] in k && k[i].ino == n;
    }
    forall m | m in ms && !m.deleted ensures m.ino in d.inodes {
      var i :| 0 <= i < |k| && k[i] == m;
      assert d.order[i] == m.ino;
    }
  }

  /** r is a with each extent written back, and no references yet. */
  ghost predicate SameInode(r: Inode, a: Inode)
    reads r, r.order`offF, r.order`offDo, r.order`length, a, a.order`offF, a.order`offDo, a.order`length
  {
    && r.ino == a.ino && r.size == a.size && FileOf(r).bytes == FileOf(a).bytes && r.refcount == 0
    && r.shared == a.shared && r.deleted == a.deleted && r.dlocked == a.dlocked
    && r.version == a.version + |a.order|
  }

  lemma ImageFields(inode: Inode)
    ensures ImageOf(inode).ino == inode.ino && ImageOf(inode).deleted == inode.deleted
  {
  }

  lemma PicturedKeys(c: Container, ms: seq<Image>)
    requires Pictured(c, ms)
    ensures forall n :: n in c.inodes && !c.inodes[n].deleted <==> exists m :: m in ms && m.ino == n && !m.deleted
  {
    hide ImageOf;
    forall n | n in c.inodes && !c.inodes[n].deleted ensures exists m :: m in ms && m.ino == n && !m.deleted {
      assert n in SetOf(c.order);
      var i :| 0 <= i < |c.order| && c.order[i] == n;
      ImageFields(c.inodes[n]);
      assert ms[i] in ms;
    }
    forall m | m in ms && !m.deleted ensures m.ino in c.inodes && !c.inodes[m.ino].deleted {
      var i :| 0 <= i < |ms| && ms[i] == m;
      ImageFields(c.inodes[c.order[i]]);
    }
  }

  /** The image of an inode in the server. */
  lemma PictureAt(c: Container, ms: seq<Image>, m: Image)
    requires Pictured(c, ms) && m in ms
    ensures m.ino in c.inodes && m == ImageOf(c.inodes[m.ino])
  {
    hide ImageOf;
    var i :| 0 <= i < |ms| && ms[i] == m;
    ImageFields(c.inodes[c.order[i]]);
  }

  lemma RestoredSame(r: Inode, a: Inode)
    requires Restored(r, ImageOf(a))
    ensures SameInode(r, a)
  {
    hide BytesOf;
  }

  lemma HeldSame(c: Container, d: Container, ms: seq<Image>, n: nat)
    requires Pictured(c, ms) && Holds(d, Kept(ms)) && n in d.inodes && n in c.inodes
    ensures SameInode(d.inodes[n], c.inodes[n])
  {
    hide Pictured, Kept, ImageOf, Restored, Valid, SameInode;
    var k := Kept(ms);
    assert n in SetOf(d.order);
    var i :| 0 <= i < |d.order| && d.order[i] == n;
    assert k[i] in k && k[i].ino == n;
    PictureAt(c, ms, k[i]);
    RestoredSame(d.inodes[n], c.inodes[n]);
  }

  /** The numbers of the inodes not deleted among the first k, in the server's order. */
  ghost function LiveOrder(c: Container, k: nat): seq<nat>
    requires k <= |c.order| && forall i | 0 <= i < |c.order| :: c.order[i] in c.inodes
    reads c, c.inodes.Values`deleted
  {
    if k == 0 then []
    else LiveOrder(c, k - 1) + if c.inodes[c.order[k - 1]].deleted then [] else [c.order[k - 1]]
  }

  lemma PictureIndex(c: Container, ms: seq<Image>, i: nat)
    requires Pictured(c, ms) && i < |ms|
    ensures c.order[i] in c.inodes && ms[i].ino == c.order[i] && ms[i].deleted == c.inodes[c.order[i]].deleted
  {
    hide ImageOf;
    ImageFields(c.inodes[c.order[i]]);
  }

  lemma KeptStep(ms: seq<Image>, k: nat)
    requires k < |ms|
    ensures Numbers(Kept(ms[..k + 1])) == Numbers(Kept(ms[..k])) + if ms[k].deleted then [] else [ms[k].ino]
  {
    var a := ms[..k + 1];
    assert a[..|a| - 1] == ms[..k] && a[|a| - 1] == ms[k];
    hide Kept;
  }

  lemma LiveStep(c: Container, k: nat)
    requires k < |c.order| && forall i | 0 <= i < |c.order| :: c.order[i] in c.inodes
    ensures LiveOrder(c, 0) == []
    ensures LiveOrder(c, k + 1) == LiveOrder(c, k) + if c.inodes[c.order[k]].deleted then [] else [c.order[k]]
  {
  }

  lemma AllThere(c: Container, ms: seq<Image>)
    requires Pictured(c, ms)
    ensures |ms| == |c.order| && forall i | 0 <= i < |c.order| :: c.order[i] in c.inodes
  {
    hide ImageOf;
    forall i | 0 <= i < |ms| ensures c.order[i] in c.inodes { PictureIndex(c, ms, i); }
  }

  lemma NoNumbers(ms: seq<Image>)
    ensures Numbers(Kept(ms[..0])) == []
  {
  }

  lemma LiveNone(c: Container)
    requires forall i | 0 <= i < |c.order| :: c.order[i] in c.inodes
    ensures LiveOrder(c, 0) == []
  {
  }

  lemma {:induction false} KeptOrder(c: Container, ms: seq<Image>, k: nat)
    requires Pictured(c, ms) && |ms| == |c.order| && forall i | 0 <= i < |c.order| :: c.order[i] in c.inodes
    requires k <= |ms|
    ensures Numbers(Kept(ms[..k])) == LiveOrder(c, k)
  {
    hide Kept, Numbers, Pictured, LiveOrder;
    if k == 0 {
      NoNumbers(ms);
      LiveNone(c);
    } else {
      KeptOrder(c, ms, k - 1);
      PictureIndex(c, ms, k - 1);
      KeptStep(ms, k - 1);
      LiveStep(c, k - 1);
    }
  }

  lemma HeldOrder(d: Container, ms: seq<Image>)
    requires Holds(d, ms)
    ensures d.order == Numbers(ms)
  {
  }

  /** What BackupAndRestore promises follows from what was saved and what came back. */
  lemma AllSame(c: Container, d: Container, ms: seq<Image>)
    requires Pictured(c, ms) && Holds(d, Kept(ms))
    ensures forall n :: n in d.inodes <==> n in c.inodes && !c.inodes[n].deleted
    ensures forall i | 0 <= i < |c.order| :: c.order[i] in c.inodes
    ensures d.order == LiveOrder(c, |c.order|)
    ensures forall n | n in d.inodes :: SameInode(d.inodes[n], c.inodes[n])
  {
    hide Pictured, Holds, Kept, SameInode, Numbers, LiveOrder;
    HeldNumbers(d, ms);
    PicturedKeys(c, ms);
    AllThere(c, ms);
    KeptOrder(c, ms, |ms|);
    assert ms[..|ms|] == ms;
    HeldOrder(d, Kept(ms));
    forall n | n in d.inodes ensures SameInode(d.inodes[n], c.inodes[n]) { HeldSame(c, d, ms, n); }
  }

  /** Backing up and restoring into an empty server gives a server that has exactly the
      inodes that were not deleted, in the same order, each with its number, size, flags and byte map. */
  method BackupAndRestore(c: Container, ghost ms: seq<Image>) returns (d: Container)
    requires Pictured(c, ms) && forall n | n in c.inodes :: Valid(c.inodes[n]) && Sized(FileOf(c.inodes[n]))
    ensures fresh(d) && Holds(d, Kept(ms))
    ensures forall n :: n in d.inodes <==> n in c.inodes && !c.inodes[n].deleted
    ensures forall i | 0 <= i < |c.order| :: c.order[i] in c.inodes
    ensures d.order == LiveOrder(c, |c.order|)
    ensures forall n | n in d.inodes :: SameInode(d.inodes[n], c.inodes[n])
  {
    hide Valid, Sound, FileOf, Restored, StreamOf, SameInode, Kept, Holds, LiveOrder;
    forall i | 0 <= i < |ms| ensures Sound(ms[i]) {
      assert ms[i] == ImageOf(c.inodes[c.order[i]]);
      SoundAtRest(c.inodes[c.order[i]]);
    }
    forall i | 0 <= i < |Kept(ms)| ensures Sound(Kept(ms)[i]) { assert Kept(ms)[i] in ms; }
    PicturedNumbers(c, ms);
    KeptNumbered(ms);
    var out := DoBackup(c, ms);
    d := DoRestore(out, Kept(ms));
    AllSame(c, d, ms);
  }
}
