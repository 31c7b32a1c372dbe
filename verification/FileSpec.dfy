/** The simple view of a file: its size and a partial map from its bytes to
    object bytes.  A byte outside the map is a hole. */
module FileSpec {
  import opened Extents
  import opened ByteMap

  datatype File = File(size: int, bytes: imap<int, Loc>)

  /** One line of a layout list on the wire. */
  datatype Entry = Entry(addr: Addr, offset: nat, offDo: nat, length: nat)

  /** The address that ends a layout list. */
  const END_MARK: Addr := Addr(0, 0)

  ghost function BytesOf(v: seq<Piece>): imap<int, Loc> {
    imap b: int | Look(v, b).Some? :: Look(v, b).value
  }

  /** m with [start, end) overwritten by w. */
  ghost function Over(m: imap<int, Loc>, w: seq<Piece>, start: int, end: int): imap<int, Loc> {
    imap b: int | if start <= b < end then Look(w, b).Some? else b in m ::
      if start <= b < end then Look(w, b).value else m[b]
  }

  ghost function Larger(a: int, b: int): int { if a > b then a else b }

  /** The entries of a list as pieces of a file in which they start at t. */
  ghost function Placed(list: seq<Entry>, t: nat): (v: seq<Piece>)
    ensures |v| == |list|
    ensures forall i | 0 <= i < |v| :: v[i] == Piece(list[i].addr, t + list[i].offset, list[i].offDo, list[i].length)
  {
    seq(|list|, i requires 0 <= i < |list| => Piece(list[i].addr, t + list[i].offset, list[i].offDo, list[i].length))
  }

  // ---- the list read by pado_clone

  /** The entries of a stream before its end mark. */
  ghost function UpToMark(input: seq<Entry>): seq<Entry> {
    if input == [] || input[0].addr == END_MARK then [] else [input[0]] + UpToMark(input[1..])
  }

  /** Everything up to the first end mark, and no more. */
  lemma {:induction false} UpToMarkIs(input: seq<Entry>)
    ensures UpToMark(input) <= input && forall e <- UpToMark(input) :: e.addr != END_MARK
    ensures |UpToMark(input)| < |input| ==> input[|UpToMark(input)|].addr == END_MARK
  {
    if input != [] && input[0].addr != END_MARK {
      UpToMarkIs(input[1..]);
    }
  }

  lemma {:induction false} MarkedList(list: seq<Entry>, e: Entry)
    requires e.addr == END_MARK && forall i | 0 <= i < |list| :: list[i].addr != END_MARK
    ensures UpToMark(list + [e]) == list && (list + [e])[|list|] == e
  {
    if list != [] {
      assert (list + [e])[1..] == list[1..] + [e];
      MarkedList(list[1..], e);
    }
  }

  /** p cut off at `end`. */
  ghost function Short(p: Piece, end: int): Piece
    requires p.offF <= end
  {
    if End(p) > end then Cut(p, end) else p
  }

  /** What pado_clone makes of a list: entries after `end` are skipped, one that crosses it is cut. */
  ghost function Clipped(list: seq<Entry>, start: nat, end: nat): seq<Piece> {
    if list == [] then []
    else
      var init, p := Clipped(list[..|list| - 1], start, end), Placed(list, start)[|list| - 1];
      if p.offF > end then init else init + [Short(p, end)]
  }

  lemma ClippedNone(input: seq<Entry>, start: nat, end: nat)
    ensures input[..0] == [] && Clipped(input[..0], start, end) == []
  {
  }

  lemma ClippedStep(input: seq<Entry>, n: nat, start: nat, end: nat)
    requires n < |input|
    ensures var init, e := Clipped(input[..n], start, end), input[n];
      Clipped(input[..n + 1], start, end) == if start + e.offset > end then init
        else init + [Piece(e.addr, start + e.offset, e.offDo,
          if start + e.offset + e.length > end then end - (start + e.offset) else e.length)]
  {
    assert input[..n + 1][..n] == input[..n];
  }

  lemma SplitLast<T>(s: seq<T>, n: nat, r: seq<T>)
    requires n < |s|
    ensures s[..n] + ([s[n]] + r) == s[..n + 1] + r
  {
  }

  lemma UpToMarkStep(input: seq<Entry>, n: nat)
    requires n < |input| && input[..n] + UpToMark(input[n..]) == UpToMark(input)
    ensures input[n].addr == END_MARK ==> input[..n] == UpToMark(input)
    ensures input[n].addr != END_MARK ==> input[..n + 1] + UpToMark(input[n + 1..]) == UpToMark(input)
  {
    var rest := input[n..];
    assert rest[0] == input[n] && rest[1..] == input[n + 1..];
    if input[n].addr == END_MARK {
      assert input[..n] + [] == input[..n];
    } else {
      SplitLast(input, n, UpToMark(input[n + 1..]));
    }
  }

  lemma PlacedInit(list: seq<Entry>, start: nat)
    requires list != []
    ensures Placed(list[..|list| - 1], start) == Placed(list, start)[..|list| - 1]
  {
  }

  lemma LaterStill(v: seq<Piece>, i: nat, j: nat, end: int)
    requires Ordered(v) && i < j < |v| && end < v[i].offF
    ensures end < v[j].offF
  {
  }

  lemma ClippedLast(list: seq<Entry>, start: nat, end: nat)
    ensures list == [] ==> Clipped(list, start, end) == []
    ensures list != [] ==>
      var init, p := Clipped(list[..|list| - 1], start, end), Placed(list, start)[|list| - 1];
      Clipped(list, start, end) == if p.offF > end then init else init + [Short(p, end)]
  {
    hide Placed, Short;
  }

  /** x has the first k pieces of v, cut off at `end`, and the others start later. */
  ghost predicate Leading(v: seq<Piece>, x: seq<Piece>, k: nat, end: int) {
    && k == |x| <= |v| && (forall i | 0 <= i < k :: v[i].offF <= end && x[i] == Short(v[i], end))
    && (forall i | k <= i < |v| :: end < v[i].offF)
  }

  lemma LeadingNone(start: nat, end: nat)
    ensures Leading(Placed([], start), Clipped([], start, end), 0, end)
  {
  }

  lemma LeadingMore(v: seq<Piece>, x: seq<Piece>, k: nat, end: int, p: Piece)
    requires Leading(v, x, k, end)
    ensures end < p.offF ==> Leading(v + [p], x, k, end)
    ensures p.offF <= end && k == |v| ==> Leading(v + [p], x + [Short(p, end)], k + 1, end)
  {
    hide Short;
  }

  lemma LeadingAll(v: seq<Piece>, x: seq<Piece>, k: nat, end: int, p: Piece)
    requires Leading(v, x, k, end) && Ordered(v + [p]) && p.offF <= end
    ensures k == |v|
  {
    hide Short, Ordered;
    if k < |v| { LaterStill(v + [p], k, |v|, end); }
  }

  /** The entries kept are the first k. */
  lemma {:induction false} ClipShape(list: seq<Entry>, start: nat, end: nat) returns (k: nat)
    requires Ordered(Placed(list, start))
    ensures Leading(Placed(list, start), Clipped(list, start, end), k, end)
  {
    hide Ordered, Placed, Short, Clipped, Leading;
    k := 0;
    ClippedLast(list, start, end);
    if list == [] {
      LeadingNone(start, end);
    } else {
      var v, n := Placed(list, start), |list| - 1;
      PlacedInit(list, start);
      OrderedParts(v, n);
      k := ClipShape(list[..n], start, end);
      var init := Clipped(list[..n], start, end);
      assert v[..n] + [v[n]] == v;
      LeadingMore(v[..n], init, k, end, v[n]);
      if v[n].offF <= end {
        LeadingAll(v[..n], init, k, end, v[n]);
        k := n + 1;
      }
    }
  }

  lemma ShortOrdered(v: seq<Piece>, x: seq<Piece>, end: int)
    requires Ordered(v) && |x| <= |v| && forall i | 0 <= i < |x| :: v[i].offF < end && x[i] == Short(v[i], end)
    ensures Ordered(x)
  {
    forall i, j | 0 <= i < j < |x| ensures End(x[i]) <= x[j].offF { assert End(v[i]) <= v[j].offF; }
  }

  /** The clipped list is fit for replace if and only if no entry starts exactly at `end`. */
  lemma ClipFits(list: seq<Entry>, start: nat, end: nat)
    requires start <= end && Ordered(Placed(list, start))
    ensures Within(Clipped(list, start, end), start, end)
    ensures Ordered(Clipped(list, start, end)) <==> forall i | 0 <= i < |list| :: start + list[i].offset != end
  {
    hide Placed, Clipped;
    var v, x := Placed(list, start), Clipped(list, start, end);
    var k := ClipShape(list, start, end);
    if forall i | 0 <= i < |list| :: start + list[i].offset != end { ShortOrdered(v, x, end); }
    if i :| 0 <= i < |list| && start + list[i].offset == end {
      assert v[i].offF == end;
      assert x[i].length == 0;
    }
  }

  /** The empty piece a list ends with, if it does. */
  ghost function EmptyEnd(x: seq<Piece>): Option<Piece> {
    if x != [] && x[|x| - 1].length == 0 then Some(x[|x| - 1]) else None
  }

  lemma ShortSorted(v: seq<Piece>, x: seq<Piece>, end: int)
    requires Ordered(v) && |x| <= |v| && forall i | 0 <= i < |x| :: v[i].offF <= end && x[i] == Short(v[i], end)
    ensures Sorted(x) && (forall i | 0 <= i < |x| :: x[i].length == 0 <==> v[i].offF == end)
    ensures (forall i | 0 <= i < |x| - 1 :: x[i].length > 0)
  {
    forall i, j | 0 <= i < j < |x| ensures End(x[i]) <= x[j].offF && v[i].offF < end {
      assert End(v[i]) <= v[j].offF && v[i].length > 0;
    }
    forall i | 0 <= i < |x| - 1 ensures x[i].length > 0 { assert End(v[i]) <= v[i + 1].offF && v[i].length > 0; }
  }

  lemma ClipListed(list: seq<Entry>, start: nat, end: nat)
    requires start <= end && Ordered(Placed(list, start))
    ensures var x := Clipped(list, start, end); Listed(x, start, end, EmptyEnd(x))
  {
    hide Placed, Clipped;
    var v, x := Placed(list, start), Clipped(list, start, end);
    var k := ClipShape(list, start, end);
    ShortSorted(v, x, end);
    forall i | 0 <= i < |x| ensures start <= x[i].offF && End(x[i]) <= end { assert v[i].offF >= start; }
  }

  /** Cloning the list into f leaves no empty extent: no entry starts at `end`; or f goes on
      at `end` where that entry would; or f is empty, the entry is the second and continues the first. */
  ghost predicate CloneFits(f: File, list: seq<Entry>, start: nat, end: nat) {
    forall i | 0 <= i < |list| && start + list[i].offset == end ::
      || (end in f.bytes && f.bytes[end] == Loc(list[i].addr, list[i].offDo))
      || (f.bytes == imap[] && i == 1 && Mergeable(Placed(list, start)[0], Placed(list, start)[1]))
  }

  /** The piece before one that starts at `end` is not cut. */
  lemma FirstUncut(p: seq<Piece>, end: int)
    requires Ordered(p) && |p| > 1 && p[1].offF == end
    ensures p[0].offF <= end && Short(p[0], end) == p[0]
  {
  }

  lemma NoBytes(f: File, v: seq<Piece>)
    requires f.bytes == BytesOf(v) && Ordered(v)
    ensures f.bytes == imap[] <==> v == []
  {
    if v == [] {
      assert f.bytes == imap[];
    } else {
      LookAt(v, 0, v[0].offF);
      assert v[0].offF in f.bytes;
    }
  }

  lemma ClipSettles(f: File, v: seq<Piece>, list: seq<Entry>, start: nat, end: nat)
    requires start <= end && Ordered(Placed(list, start)) && Ordered(v) && f.bytes == BytesOf(v)
    ensures var x := Clipped(list, start, end); Settles(EmptyEnd(x), v, x, end) <==> CloneFits(f, list, start, end)
  {
    hide Clipped, Look, Ordered;
    var p, x := Placed(list, start), Clipped(list, start, end);
    var k := ClipShape(list, start, end);
    ShortSorted(p, x, end);
    NoBytes(f, v);
    forall i | 0 <= i < |list| && start + list[i].offset == end
      ensures i == |x| - 1 && EmptyEnd(x) == Some(Piece(list[i].addr, end, list[i].offDo, 0))
    {
      assert p[i].offF == end;
      assert x[i].length == 0;
    }
    if EmptyEnd(x).Some? {
      var i := |x| - 1;
      assert p[i].offF == end && start + list[i].offset == end;
      if i == 1 { FirstUncut(p, end); }
    }
  }

  /** The assertions hold while the list is cloned into the layout v: no entry starts at `end`; or
      the layout is empty and that entry is not the first; or the entries up to it are more than the
      old extents inside the range, not counting a first entry that continues what lies before it. */
  ghost predicate CloneStands(v: seq<Piece>, list: seq<Entry>, start: nat, end: nat) {
    forall i | 0 <= i < |list| && start + list[i].offset == end ::
      if v == [] then i > 0
      else i + 1 > Contained(v, 0, start, end) + if Continues(v, Placed(list, start), start) then 1 else 0
  }

  lemma NoneAtEnd(v: seq<Piece>, list: seq<Entry>, start: nat, end: nat)
    requires forall i | 0 <= i < |list| :: start + list[i].offset != end
    ensures CloneStands(v, list, start, end)
  {
  }

  lemma SameStart(v: seq<Piece>, p: seq<Piece>, x: seq<Piece>, start: int, end: int)
    requires 0 < |x| <= |p| && p[0].offF <= end && x[0] == Short(p[0], end)
    ensures Continues(v, x, start) <==> Continues(v, p, start)
  {
  }

  lemma ClipStands(v: seq<Piece>, list: seq<Entry>, start: nat, end: nat)
    requires start <= end && Ordered(Placed(list, start))
    ensures var x := Clipped(list, start, end);
      Stands(EmptyEnd(x), v, x, start, end) <==> CloneStands(v, list, start, end)
  {
    hide Clipped, Look, Ordered, Contained, Continues;
    var p, x := Placed(list, start), Clipped(list, start, end);
    var k := ClipShape(list, start, end);
    ShortSorted(p, x, end);
    if x != [] { SameStart(v, p, x, start, end); }
    forall i | 0 <= i < |list| && start + list[i].offset == end ensures i == |x| - 1 && EmptyEnd(x).Some? {
      assert p[i].offF == end;
      assert x[i].length == 0;
    }
    if EmptyEnd(x).Some? {
      var i := |x| - 1;
      assert p[i].offF == end && start + list[i].offset == end;
    }
  }

  /** An entry that starts exactly at `end` becomes an empty extent. */
  lemma ClipAtEnd()
    ensures var list := [Entry(Addr(1, 1), 4, 0, 2)];
      Ordered(Placed(list, 0)) && Clipped(list, 0, 4) == [Piece(Addr(1, 1), 4, 0, 0)]
  {
    var list := [Entry(Addr(1, 1), 4, 0, 2)];
    assert list[..0] == [];
  }

  ghost function Blank(size: nat): File { File(size, imap[]) }

  lemma PairOrdered(p: Piece, q: Piece)
    requires p.length > 0 && q.length > 0 && End(p) <= q.offF
    ensures Ordered([p]) && Ordered([p, q])
  {
  }

  /** A list whose only entry at `end` is its last does not fit replace as it is. */
  lemma EndsAtEnd(list: seq<Entry>, end: nat)
    requires list != [] && Ordered(Placed(list, 0)) && list[|list| - 1].offset == end
    ensures !Ordered(Clipped(list, 0, end))
  {
    hide Ordered, Placed, Clipped;
    ClipFits(list, 0, end);
    assert 0 + list[|list| - 1].offset == end;
  }

  lemma ContinuedFits()
    ensures var list, v := [Entry(Addr(1, 1), 4, 0, 2)], [Piece(Addr(1, 1), 4, 0, 4)];
      !Ordered(Clipped(list, 0, 4)) && CloneFits(File(8, BytesOf(v)), list, 0, 4)
  {
    hide Ordered, Clipped, Look;
    var list, v := [Entry(Addr(1, 1), 4, 0, 2)], [Piece(Addr(1, 1), 4, 0, 4)];
    var p := Piece(Addr(1, 1), 4, 0, 2);
    assert Placed(list, 0) == [p];
    PairOrdered(p, Piece(Addr(1, 1), 6, 0, 1));
    PairOrdered(v[0], Piece(Addr(1, 1), 8, 0, 1));
    EndsAtEnd(list, 4);
    LookAt(v, 0, 4);
  }

  lemma SwallowedFits()
    ensures var list := [Entry(Addr(1, 1), 0, 0, 4), Entry(Addr(1, 1), 4, 4, 2)];
      !Ordered(Clipped(list, 0, 4)) && CloneFits(Blank(0), list, 0, 4)
  {
    hide Ordered, Clipped, Look;
    var list := [Entry(Addr(1, 1), 0, 0, 4), Entry(Addr(1, 1), 4, 4, 2)];
    var p, q := Piece(Addr(1, 1), 0, 0, 4), Piece(Addr(1, 1), 4, 4, 2);
    assert Placed(list, 0) == [p, q];
    PairOrdered(p, q);
    EndsAtEnd(list, 4);
  }

  /** Two lists with an entry at `end` that fit all the same: a file that goes on where the entry
      would, and an empty file whose first new extent the entry continues. */
  lemma EndEntriesThatFit()
    ensures var list, v := [Entry(Addr(1, 1), 4, 0, 2)], [Piece(Addr(1, 1), 4, 0, 4)];
      !Ordered(Clipped(list, 0, 4)) && CloneFits(File(8, BytesOf(v)), list, 0, 4)
    ensures var list := [Entry(Addr(1, 1), 0, 0, 4), Entry(Addr(1, 1), 4, 4, 2)];
      !Ordered(Clipped(list, 0, 4)) && CloneFits(Blank(0), list, 0, 4)
  {
    hide Clipped, Ordered, CloneFits, BytesOf;
    ContinuedFits();
    SwallowedFits();
  }

  /** Two lists whose cloning into [0, 4) trips an assertion: an entry at `end` alone, into an empty
      layout; and the same where an old extent fills the range, though the file goes on at `end`
      where the entry would.  v is any layout of that file. */
  lemma StoppingLists(v: seq<Piece>)
    requires Ordered(v) && Look(v, 0) == Some(Loc(Addr(1, 1), 0)) && Look(v, 4) == Some(Loc(Addr(2, 2), 0))
    ensures !CloneStands([], [Entry(Addr(1, 1), 4, 0, 2)], 0, 4)
    ensures var list := [Entry(Addr(2, 2), 4, 0, 2)];
      !CloneStands(v, list, 0, 4) && CloneFits(File(8, BytesOf(v)), list, 0, 4)
  {
    hide Look, Sorted, Positive, Contained, Continues;
    var one, list := [Entry(Addr(1, 1), 4, 0, 2)], [Entry(Addr(2, 2), 4, 0, 2)];
    assert 0 + one[0].offset == 4 && 0 + list[0].offset == 4;
    LookCovers(v, 0);
    var i :| 0 <= i < |v| && Covers(v[i], 0) && Look(v, 0) == Some(LocIn(v[i], 0));
    if Covers(v[i], 4) { LookAt(v, i, 4); }
    SomeContained(v, 0, i, 0, 4);
  }

  /** Two lists that agree up to cuts beyond b and pieces beyond b agree at b. */
  lemma SameLook(x: seq<Piece>, v: seq<Piece>, b: int)
    requires Sorted(x) && Sorted(v) && |x| <= |v|
    requires forall i | 0 <= i < |x| :: (Covers(x[i], b) <==> Covers(v[i], b)) && LocIn(x[i], b) == LocIn(v[i], b)
    requires forall i | |x| <= i < |v| :: !Covers(v[i], b)
    ensures Look(x, b) == Look(v, b)
  {
    hide Look, Sorted;
    if i :| 0 <= i < |x| && Covers(x[i], b) {
      LookAt(v, i, b);
      LookAt(x, i, b);
    } else {
      forall i | 0 <= i < |v| ensures !Covers(v[i], b) { if i < |x| { assert !Covers(x[i], b); } }
      LookNone(v, b);
      LookNone(x, b);
    }
  }

  /** Clipping changes no byte inside the range. */
  lemma ClipKeeps(list: seq<Entry>, start: nat, end: nat, b: int)
    requires Ordered(Placed(list, start)) && start <= b < end
    ensures Look(Clipped(list, start, end), b) == Look(Placed(list, start), b)
  {
    var v, x := Placed(list, start), Clipped(list, start, end);
    var k := ClipShape(list, start, end);
    ShortSorted(v, x, end);
    SameLook(x, v, b);
  }

  /** Part of the range inside the file is a hole. */
  ghost predicate HoleIn(f: File, lo: int, hi: int) {
    exists b :: lo <= b < hi && b < f.size && b !in f.bytes
  }

  datatype Op =
    | Write(addr: Addr, offF: nat, offDo: nat, length: nat)
    | Truncate(newsize: nat)
    | Clone(list: seq<Entry>, start: nat, end: nat)
    | Remove(gone: Addr)

  /** What the code demands of an operation's arguments. */
  ghost predicate Proper(op: Op) {
    match op
    case Write(_, _, _, length) => length > 0
    case Truncate(_) => true
    case Clone(list, start, end) =>
      && start < end && Ordered(Placed(list, start))
      && forall i | 0 <= i < |list| :: list[i].addr != END_MARK
    case Remove(_) => true
  }

  ghost function Apply(f: File, op: Op): File {
    match op
    case Write(addr, offF, offDo, length) =>
      File(Larger(f.size, offF + length), Over(f.bytes, [Piece(addr, offF, offDo, length)], offF, offF + length))
    case Truncate(newsize) => File(newsize, Over(f.bytes, [], newsize, f.size))
    case Clone(list, start, end) => File(Larger(f.size, end), Over(f.bytes, Placed(list, start), start, end))
    case Remove(gone) => File(f.size, imap b | b in f.bytes && f.bytes[b].addr != gone :: f.bytes[b])
  }

  ghost function Run(f: File, ops: seq<Op>): File {
    if ops == [] then f else Apply(Run(f, ops[..|ops| - 1]), ops[|ops| - 1])
  }

  lemma BlankBytes()
    ensures BytesOf([]) == imap[]
  {
  }

  /** Every mapped byte lies inside the file. */
  ghost predicate Sized(f: File) {
    f.size >= 0 && forall b :: b in f.bytes ==> 0 <= b < f.size
  }

  lemma ApplySized(f: File, op: Op)
    requires Sized(f) && Proper(op)
    ensures Sized(Apply(f, op))
  {
  }

  lemma {:induction false} RunSized(f: File, ops: seq<Op>)
    requires Sized(f) && forall i | 0 <= i < |ops| :: Proper(ops[i])
    ensures Sized(Run(f, ops))
  {
    if ops != [] {
      RunSized(f, ops[..|ops| - 1]);
      ApplySized(Run(f, ops[..|ops| - 1]), ops[|ops| - 1]);
    }
  }

  /** op maps no byte at b. */
  ghost predicate Spares(op: Op, b: int) {
    match op
    case Write(_, offF, _, length) => !(offF <= b < offF + length)
    case Truncate(_) => true
    case Clone(list, start, end) => start <= b < end ==> Look(Placed(list, start), b).None?
    case Remove(_) => true
  }

  /** A byte that some truncation of a run cut off, and that nothing wrote since,
      reads as a hole however far the file has grown again. */
  lemma {:induction false} CutStaysCut(f: File, ops: seq<Op>, k: nat, b: int)
    requires Sized(f) && (forall i | 0 <= i < |ops| :: Proper(ops[i]))
    requires k < |ops| && ops[k].Truncate? && ops[k].newsize <= b
    requires forall i | k < i < |ops| :: Spares(ops[i], b)
    ensures b !in Run(f, ops).bytes
  {
    var most, last := ops[..|ops| - 1], ops[|ops| - 1];
    RunSized(f, most);
    if k < |ops| - 1 {
      CutStaysCut(f, most, k, b);
      assert Spares(last, b);
    }
  }

  // ---- the size after a run

  /** The size an operation asks for. */
  ghost function Mark(op: Op): Option<int> {
    match op
    case Write(_, offF, _, length) => Some(offF + length)
    case Truncate(newsize) => Some(newsize)
    case Clone(_, _, end) => Some(end)
    case Remove(_) => None
  }

  /** No truncation comes after the first n operations. */
  ghost predicate Uncut(ops: seq<Op>, n: nat) {
    forall j | n <= j < |ops| :: !ops[j].Truncate?
  }

  lemma UncutInit(ops: seq<Op>, n: nat)
    requires ops != [] && Uncut(ops, n)
    ensures Uncut(ops[..|ops| - 1], n)
  {
  }

  lemma UncutLast(ops: seq<Op>, n: nat)
    requires ops != [] && Uncut(ops[..|ops| - 1], n) && !ops[|ops| - 1].Truncate?
    ensures Uncut(ops, n)
  {
    forall j | n <= j < |ops| ensures !ops[j].Truncate? {
      if j < |ops| - 1 { assert ops[..|ops| - 1][j] == ops[j]; }
    }
  }

  /** The size is the largest that the last truncation, or the size at the start if there is none, and the writes
      and clones since ask for. */
  lemma {:induction false} SizeLaw(f: File, ops: seq<Op>)
    ensures var n := Run(f, ops).size;
      && (Uncut(ops, 0) ==> n >= f.size)
      && (forall i | 0 <= i < |ops| && Uncut(ops, i + 1) && Mark(ops[i]).Some? :: n >= Mark(ops[i]).value)
      && ((Uncut(ops, 0) && n == f.size)
        || exists i :: 0 <= i < |ops| && Uncut(ops, i + 1) && Mark(ops[i]) == Some(n))
  {
    if ops != [] {
      var most, last := ops[..|ops| - 1], ops[|ops| - 1];
      SizeLaw(f, most);
      var m, n := Run(f, most).size, Run(f, ops).size;
      forall i | 0 <= i < |ops| && Uncut(ops, i + 1) && Mark(ops[i]).Some? ensures n >= Mark(ops[i]).value {
        if i < |most| {
          assert most[i] == ops[i] && !ops[|ops| - 1].Truncate?;
          UncutInit(ops, i + 1);
        }
      }
      if Uncut(ops, 0) { UncutInit(ops, 0); }
      if Mark(last) == Some(n) {
        assert Uncut(ops, |ops| - 1 + 1) && ops[|ops| - 1] == last;
      } else {
        assert n == m && !last.Truncate?;
        if i :| 0 <= i < |most| && Uncut(most, i + 1) && Mark(most[i]) == Some(m) {
          UncutLast(ops, i + 1);
          assert ops[i] == most[i];
        } else {
          UncutLast(ops, 0);
        }
      }
    }
  }

  // ---- where a byte lives after a run

  /** Byte b of the file lives at l. */
  ghost predicate LivesAt(f: File, b: int, l: Loc) { b in f.bytes && f.bytes[b] == l }

  /** An entry placed from `start` on covers b and puts it at l. */
  ghost predicate EntryPuts(e: Entry, start: nat, b: int, l: Loc) {
    start + e.offset <= b < start + e.offset + e.length && l == Loc(e.addr, e.offDo + (b - (start + e.offset)))
  }

  /** The operation puts byte b at l. */
  ghost predicate Puts(op: Op, b: int, l: Loc) {
    match op
    case Write(addr, offF, offDo, length) => offF <= b < offF + length && l == Loc(addr, offDo + (b - offF))
    case Truncate(_) => false
    case Clone(list, start, end) => start <= b < end && exists i :: 0 <= i < |list| && EntryPuts(list[i], start, b, l)
    case Remove(_) => false
  }

  /** The operation takes byte b away from l, or puts it there anew. */
  ghost predicate Takes(op: Op, b: int, l: Loc) {
    match op
    case Write(_, offF, _, length) => offF <= b < offF + length
    case Truncate(newsize) => newsize <= b
    case Clone(_, start, end) => start <= b < end
    case Remove(gone) => l.addr == gone
  }

  lemma PlacedLook(list: seq<Entry>, start: nat, b: int, l: Loc)
    requires Ordered(Placed(list, start))
    ensures Look(Placed(list, start), b) == Some(l) <==> exists i :: 0 <= i < |list| && EntryPuts(list[i], start, b, l)
  {
    hide Look, Positive;
    var v := Placed(list, start);
    if Look(v, b) == Some(l) {
      LookCovers(v, b);
      var i :| 0 <= i < |v| && Covers(v[i], b) && l == LocIn(v[i], b);
      assert EntryPuts(list[i], start, b, l);
    }
    if i :| 0 <= i < |list| && EntryPuts(list[i], start, b, l) { LookAt(v, i, b); }
  }

  /** One operation, byte by byte. */
  lemma ByteStep(f: File, op: Op, b: int, l: Loc)
    requires Sized(f) && Proper(op)
    ensures LivesAt(Apply(f, op), b, l) <==> Puts(op, b, l) || (LivesAt(f, b, l) && !Takes(op, b, l))
  {
    hide Look, Ordered, Placed;
    match op
    case Write(addr, offF, offDo, length) =>
      var p := Piece(addr, offF, offDo, length);
      LookHead(p, [], b);
      LookNone([], b);
      assert [p] + [] == [p];
    case Truncate(newsize) => LookNone([], b);
    case Clone(list, start, end) => PlacedLook(list, start, b, l);
    case Remove(_) =>
  }

  ghost predicate Untaken(ops: seq<Op>, n: nat, b: int, l: Loc) {
    forall j | n <= j < |ops| :: !Takes(ops[j], b, l)
  }

  /** Operation i puts byte b at l, and nothing takes it away again. */
  ghost predicate LastPut(ops: seq<Op>, i: int, b: int, l: Loc) {
    0 <= i < |ops| && Puts(ops[i], b, l) && Untaken(ops, i + 1, b, l)
  }

  /** What the last operation does to the law. */
  lemma TakenLast(ops: seq<Op>, b: int, l: Loc)
    requires ops != []
    ensures var most, last := ops[..|ops| - 1], ops[|ops| - 1];
      && (Untaken(ops, 0, b, l) <==> Untaken(most, 0, b, l) && !Takes(last, b, l))
      && ((exists i :: LastPut(ops, i, b, l))
        <==> Puts(last, b, l) || ((exists i :: LastPut(most, i, b, l)) && !Takes(last, b, l)))
  {
    hide Puts, Takes;
    var most, last, n := ops[..|ops| - 1], ops[|ops| - 1], |ops| - 1;
    assert forall j | 0 <= j < n :: most[j] == ops[j];
    if Puts(last, b, l) { assert LastPut(ops, n, b, l); }
    if i :| LastPut(most, i, b, l) {
      if !Takes(last, b, l) { assert LastPut(ops, i, b, l); }
    }
    if i :| LastPut(ops, i, b, l) {
      if i < n { assert LastPut(most, i, b, l) && !Takes(ops[n], b, l); }
    }
  }

  /** After any run a byte lives where the last operation put it that did, or where it lived at the start, if
      nothing took it away since; and nowhere else. */
  lemma {:induction false} ByteLaw(f: File, ops: seq<Op>, b: int, l: Loc)
    requires Sized(f) && forall i | 0 <= i < |ops| :: Proper(ops[i])
    ensures LivesAt(Run(f, ops), b, l)
      <==> (exists i :: LastPut(ops, i, b, l)) || (LivesAt(f, b, l) && Untaken(ops, 0, b, l))
  {
    hide Proper, Sized, LivesAt, Puts, Takes, Apply;
    if ops != [] {
      var most, last := ops[..|ops| - 1], ops[|ops| - 1];
      RunSized(f, most);
      ByteLaw(f, most, b, l);
      ByteStep(Run(f, most), last, b, l);
      TakenLast(ops, b, l);
    }
  }

  // ---- shrinking and growing

  ghost function Least(n: int, ops: seq<Op>): int
    requires forall i | 0 <= i < |ops| :: ops[i].Truncate?
  {
    if ops == [] then n
    else var m, k := Least(n, ops[..|ops| - 1]), ops[|ops| - 1].newsize; if k < m then k else m
  }

  /** Shrinking and growing keeps exactly the bytes below the smallest size in between. */
  lemma {:induction false} ShrinkThenGrow(f: File, ops: seq<Op>, b: int)
    requires Sized(f) && forall i | 0 <= i < |ops| :: ops[i].Truncate?
    ensures var g := Run(f, ops);
      && (b in g.bytes <==> b in f.bytes && b < Least(f.size, ops))
      && (b in g.bytes ==> g.bytes[b] == f.bytes[b])
      && Least(f.size, ops) <= g.size && (ops != [] ==> g.size == ops[|ops| - 1].newsize)
  {
    if ops != [] {
      var most := ops[..|ops| - 1];
      ShrinkThenGrow(f, most, b);
      RunSized(f, most);
    }
  }
}
