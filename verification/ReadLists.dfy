/** The lists pado_read emits, against the byte map they are read from. */
module ReadLists {
  import opened Extents
  import opened ByteMap
  import opened FileSpec

  /** size_t arithmetic is modulo W. */
  const W: nat := 0x1_0000_0000_0000_0000

  /** x covers [lo, hi) without gap or overlap, in order. */
  ghost predicate Tiles(x: seq<Piece>, lo: int, hi: int) {
    && (if x == [] then lo == hi else x[0].offF == lo && End(x[|x| - 1]) == hi)
    && (forall i | 0 <= i < |x| :: x[i].length > 0)
    && (forall i | 0 < i < |x| :: x[i].offF == End(x[i - 1]))
  }

  lemma TilesEmpty(lo: int, hi: int)
    requires Tiles([], lo, hi)
    ensures lo == hi
  {
  }

  lemma TilesInit(x: seq<Piece>, lo: int, hi: int)
    requires Tiles(x, lo, hi) && x != []
    ensures var n := |x| - 1; Tiles(x[..n], lo, x[n].offF) && End(x[n]) == hi && x[n].length > 0
  {
    var n := |x| - 1;
    assert forall i | 0 <= i < n :: x[..n][i] == x[i];
  }

  lemma {:induction false} TilesOrdered(x: seq<Piece>, lo: int, hi: int)
    requires Tiles(x, lo, hi)
    ensures Ordered(x) && Within(x, lo, hi) && lo <= hi
  {
    hide Tiles;
    if x == [] {
      TilesEmpty(lo, hi);
    } else {
      var n := |x| - 1;
      TilesInit(x, lo, hi);
      TilesOrdered(x[..n], lo, x[n].offF);
      assert x == x[..n] + [x[n]];
      OrderedConcat(x[..n], [x[n]], x[n].offF);
    }
  }

  lemma TilesOnce(x: seq<Piece>, lo: int, hi: int, p: Piece)
    requires Tiles(x, lo, hi) && p.offF == hi && p.length > 0
    ensures Tiles(x + [p], lo, End(p))
  {
  }

  lemma TilesMore(x: seq<Piece>, lo: int, hi: int, p: Piece)
    requires Tiles(x, lo, hi) && p.offF == hi && p.length > 0
    ensures Tiles(x + [p], lo, End(p))
    ensures forall b: int :: Look(x + [p], b) == if b >= hi && Covers(p, b) then Some(LocIn(p, b)) else Look(x, b)
    ensures forall b: int :: b >= hi ==> Look(x, b).None?
  {
    hide Tiles, Look, Ordered;
    TilesOnce(x, lo, hi, p);
    TilesOrdered(x, lo, hi);
    forall b: int ensures Look(x + [p], b) == if b >= hi && Covers(p, b) then Some(LocIn(p, b)) else Look(x, b) {
      LookConcat(x, [p], b);
      LookHead(p, [], b);
      assert [p] + [] == [p];
      LookNone([], b);
      if b >= hi { LookOutside(x, lo, hi, b); }
    }
    forall b: int | b >= hi ensures Look(x, b).None? { LookOutside(x, lo, hi, b); }
  }

  // ---- reading as a clone source (flag = 1)

  /** Where a clone source says byte b lives: a hole lives in the base object. */
  ghost function OrBase(o: Option<Loc>, base: Addr, b: int): Option<Loc> {
    if o.None? then Some(Loc(base, b)) else o
  }

  /** x tiles the range and says of each byte where it lives. */
  ghost predicate Faithful(x: seq<Piece>, v: seq<Piece>, base: Addr, lo: int, hi: int) {
    Tiles(x, lo, hi) && forall b | lo <= b < hi :: Look(x, b) == OrBase(Look(v, b), base, b)
  }

  lemma HoleStep(x: seq<Piece>, v: seq<Piece>, base: Addr, lo: nat, hi: nat, next: nat)
    requires Faithful(x, v, base, lo, hi) && hi < next && NoneMapped(v, hi, next)
    ensures Faithful(x + [Piece(base, hi, hi, next - hi)], v, base, lo, next)
  {
    hide Tiles, Look;
    TilesMore(x, lo, hi, Piece(base, hi, hi, next - hi));
  }

  /** The part of v[k] from hi on, up to n. */
  ghost function PartOf(p: Piece, hi: nat, n: nat): Piece
    requires p.offF <= hi < n
  {
    Piece(p.addr, hi, p.offDo + (hi - p.offF), n - hi)
  }

  lemma ExtentStep(x: seq<Piece>, v: seq<Piece>, base: Addr, lo: nat, hi: nat, k: nat, n: nat)
    requires Faithful(x, v, base, lo, hi) && Ordered(v) && k < |v| && v[k].offF <= hi < n <= End(v[k])
    ensures Faithful(x + [PartOf(v[k], hi, n)], v, base, lo, n)
  {
    hide Tiles, Look, Sorted, Positive;
    TilesMore(x, lo, hi, PartOf(v[k], hi, n));
    forall b | hi <= b < n ensures Look(v, b) == Some(LocIn(v[k], b)) { LookAt(v, k, b); }
  }

  // ---- a simple read (flag = 0)

  /** The same object byte in size_t arithmetic. */
  ghost predicate Same(l: Loc, m: Loc) {
    l.addr == m.addr && (l.off - m.off) % W == 0
  }

  /** x tiles the range, agrees with v on every mapped byte, and ends with one. */
  ghost predicate Plain(x: seq<Piece>, v: seq<Piece>, lo: int, hi: int) {
    && Tiles(x, lo, hi) && (lo < hi ==> Look(v, hi - 1).Some?)
    && forall b | lo <= b < hi && Look(v, b).Some? :: Look(x, b).Some? && Same(Look(x, b).value, Look(v, b).value)
  }

  /** Bytes [hi, n) given to v[k], counted back from its start if it starts later. */
  lemma PlainStep(x: seq<Piece>, v: seq<Piece>, lo: nat, hi: nat, k: nat, n: nat, offDo: nat)
    requires Plain(x, v, lo, hi) && Ordered(v) && FirstAfter(v, hi, k) && k < |v|
    requires v[k].offF < n <= End(v[k]) && hi < n && (offDo - (v[k].offDo + (hi - v[k].offF))) % W == 0
    ensures Plain(x + [Piece(v[k].addr, hi, offDo, n - hi)], v, lo, n)
  {
    hide Tiles, Look;
    var p := Piece(v[k].addr, hi, offDo, n - hi);
    TilesMore(x, lo, hi, p);
    forall b | hi <= b < n
      ensures Look(v, b).Some? <==> v[k].offF <= b
      ensures Look(v, b).Some? ==> Same(LocIn(p, b), Look(v, b).value)
    {
      if b < v[k].offF { LookNone(v, b); } else { LookAt(v, k, b); }
    }
  }

  ghost predicate NoneMapped(v: seq<Piece>, lo: int, hi: int) {
    forall b | lo <= b < hi :: Look(v, b).None?
  }

  /** x is what a simple read of [lo, end) gives: it reaches up to the last mapped byte. */
  ghost predicate ReadsPlain(x: seq<Piece>, v: seq<Piece>, lo: int, end: int) {
    exists hi :: lo <= hi <= end && Plain(x, v, lo, hi) && NoneMapped(v, hi, end)
  }

  /** What a simple read gives at a byte is what the byte map gives. */
  ghost predicate AgreesAt(x: seq<Piece>, v: seq<Piece>, b: int) {
    if Look(v, b).None? then Look(x, b).None? else Look(x, b).Some? && Same(Look(x, b).value, Look(v, b).value)
  }

  ghost predicate RightOn(x: seq<Piece>, v: seq<Piece>, lo: int, end: int) {
    forall b | lo <= b < end :: AgreesAt(x, v, b)
  }

  /** No hole of the range precedes a mapped byte of the range. */
  ghost predicate HolesLast(v: seq<Piece>, lo: int, end: int) {
    forall b, c | lo <= b < c < end :: Look(v, b).None? ==> Look(v, c).None?
  }

  lemma {:induction false} TilesFull(x: seq<Piece>, lo: int, hi: int, b: int)
    requires Tiles(x, lo, hi)
    ensures Look(x, b).Some? <==> lo <= b < hi
  {
    hide Tiles, Look, Ordered, Within;
    TilesOrdered(x, lo, hi);
    if x == [] { TilesEmpty(lo, hi); }
    if x == [] || b < lo || hi <= b {
      LookOutside(x, lo, hi, b);
    } else {
      var n := |x| - 1;
      TilesInit(x, lo, hi);
      TilesFull(x[..n], lo, x[n].offF, b);
      assert x == x[..n] + [x[n]];
      LookConcat(x[..n], [x[n]], b);
      LookHead(x[n], [], b);
      LookNone([], b);
      assert [x[n]] + [] == [x[n]];
    }
  }

  /** A simple read of [lo, end) is right if and only if no hole of the range
      precedes a mapped byte of the range. */
  lemma PlainExact(x: seq<Piece>, v: seq<Piece>, lo: nat, end: nat)
    requires ReadsPlain(x, v, lo, end)
    ensures RightOn(x, v, lo, end) <==> HolesLast(v, lo, end)
  {
    hide Tiles, Look;
    var hi :| lo <= hi <= end && Plain(x, v, lo, hi) && NoneMapped(v, hi, end);
    TilesOrdered(x, lo, hi);
    forall b ensures Look(x, b).Some? <==> lo <= b < hi { TilesFull(x, lo, hi, b); }
    if RightOn(x, v, lo, end) {
      forall b, c | lo <= b < c < end && Look(v, b).None? ensures Look(v, c).None? { assert AgreesAt(x, v, b); }
    }
    if HolesLast(v, lo, end) {
      forall b | lo <= b < end ensures AgreesAt(x, v, b) {
        if b < hi - 1 { assert Look(v, hi - 1).Some?; }
      }
    }
  }

  /** Of a file whose first four bytes are a hole no simple read of [0, 8) is right. */
  lemma SimpleReadPastHole(x: seq<Piece>)
    requires ReadsPlain(x, [Piece(Addr(1, 7), 4, 10, 4)], 0, 8)
    ensures Ordered([Piece(Addr(1, 7), 4, 10, 4)]) && !RightOn(x, [Piece(Addr(1, 7), 4, 10, 4)], 0, 8)
  {
    var v := [Piece(Addr(1, 7), 4, 10, 4)];
    PlainExact(x, v, 0, 8);
    LookNone(v, 0);
    LookAt(v, 0, 4);
  }

  // ---- where entries begin

  /** A piece ends at e or, for a clone source, starts there. */
  ghost predicate Edge(flag: bool, v: seq<Piece>, e: int) {
    exists k :: 0 <= k < |v| && (End(v[k]) == e || (flag && v[k].offF == e))
  }

  ghost predicate BeginsAt(x: seq<Piece>, e: int) {
    exists i :: 0 <= i < |x| && x[i].offF == e
  }

  /** The list is divided where the layout is, and nowhere else. */
  ghost predicate Divided(flag: bool, x: seq<Piece>, v: seq<Piece>) {
    && (forall i | 0 < i < |x| :: Edge(flag, v, x[i].offF))
    && (x != [] ==> forall e | x[0].offF < e < End(x[|x| - 1]) && Edge(flag, v, e) :: BeginsAt(x, e))
  }

  lemma DividedMore(flag: bool, x: seq<Piece>, v: seq<Piece>, p: Piece)
    requires Divided(flag, x, v) && (x != [] ==> End(x[|x| - 1]) == p.offF && Edge(flag, v, p.offF))
    requires forall e | p.offF < e < End(p) :: !Edge(flag, v, e)
    ensures Divided(flag, x + [p], v)
  {
    hide Edge;
    var y := x + [p];
    forall i | 0 < i < |y| ensures Edge(flag, v, y[i].offF) {
      if i < |x| { assert y[i] == x[i]; }
    }
    forall e | y[0].offF < e < End(y[|y| - 1]) && Edge(flag, v, e) ensures BeginsAt(y, e) {
      if x != [] && e < End(x[|x| - 1]) {
        assert BeginsAt(x, e);
        var i :| 0 <= i < |x| && x[i].offF == e;
        assert y[i].offF == e;
      } else {
        assert y[|x|].offF == e;
      }
    }
  }

  /** Nothing starts or ends within the hole before the k-th piece, or within the k-th piece. */
  lemma NoEdges(flag: bool, v: seq<Piece>, k: nat, hi: int, n: int)
    requires Ordered(v) && FirstAfter(v, hi, k)
    requires k < |v| ==> n <= v[k].offF || (n <= End(v[k]) && (flag ==> v[k].offF <= hi))
    ensures forall e | hi < e < n :: !Edge(flag, v, e)
  {
    forall j | 0 <= j < |v|
      ensures (End(v[j]) <= hi || n <= End(v[j])) && (flag ==> v[j].offF <= hi || n <= v[j].offF)
    {
      if j >= k {
        assert v[j].length > 0;
        if j > k { assert End(v[k]) <= v[j].offF; }
      }
    }
  }

  // ---- the search position

  /** After the k-th piece has been read to its end. */
  lemma NextPiece(v: seq<Piece>, hi: int, k: nat)
    requires Ordered(v) && FirstAfter(v, hi, k) && k < |v|
    ensures FirstAfter(v, End(v[k]), k + 1)
    ensures hi < v[k].offF ==> FirstAfter(v, v[k].offF, k)
  {
  }

  /** Between hi and the k-th piece there is a hole. */
  lemma HoleBefore(v: seq<Piece>, hi: int, k: nat, n: int)
    requires Ordered(v) && FirstAfter(v, hi, k) && (k < |v| ==> n <= v[k].offF)
    ensures NoneMapped(v, hi, n)
  {
    forall b | hi <= b < n ensures Look(v, b).None? { LookNone(v, b); }
  }

  // ---- copying a range by reading and cloning

  lemma FaithfulAt(x: seq<Piece>, v: seq<Piece>, base: Addr, lo: int, hi: int, b: int)
    requires Faithful(x, v, base, lo, hi)
    ensures Tiles(x, lo, hi) && Look(x, b) == if lo <= b < hi then OrBase(Look(v, b), base, b) else None
  {
    TilesOrdered(x, lo, hi);
    if !(lo <= b < hi) { LookOutside(x, lo, hi, b); }
  }

  lemma ShiftedOrder(x: seq<Piece>, y: seq<Piece>, lo: int, hi: int, d: int)
    requires Ordered(x) && Within(x, lo, hi) && |y| == |x|
    requires forall i | 0 <= i < |y| :: y[i].offF == x[i].offF + d && y[i].length == x[i].length
    ensures Ordered(y) && Within(y, lo + d, hi + d) && forall i | 0 <= i < |y| :: y[i].length > 0
  {
    forall i, j | 0 <= i < j < |y| ensures End(y[i]) <= y[j].offF { assert End(x[i]) <= x[j].offF; }
  }

  /** The same list placed elsewhere. */
  lemma Shifted(list: seq<Entry>, s: nat, t: nat, hi: nat, b: int)
    requires Tiles(Placed(list, s), s, hi)
    ensures Ordered(Placed(list, t)) && Within(Placed(list, t), t, t + hi - s)
    ensures Look(Placed(list, t), b) == Look(Placed(list, s), b - t + s)
    ensures forall i | 0 <= i < |list| :: s + list[i].offset < hi
  {
    hide Look, Sorted, Positive, Tiles;
    var x, y := Placed(list, s), Placed(list, t);
    TilesOrdered(x, s, hi);
    ShiftedOrder(x, y, s, hi, t - s);
    forall i | 0 <= i < |list|
      ensures s + list[i].offset < hi
    {
      assert y[i].length > 0 && x[i].offF == s + list[i].offset;
    }
    if i :| 0 <= i < |x| && Covers(x[i], b - t + s) {
      LookAt(x, i, b - t + s);
      LookAt(y, i, b);
    } else {
      forall i | 0 <= i < |y| ensures !Covers(y[i], b) { assert !Covers(x[i], b - t + s); }
      LookNone(x, b - t + s);
      LookNone(y, b);
    }
  }

  lemma NonePlaced(t: nat, b: int)
    ensures Placed([], t) == [] && Ordered(Placed([], t)) && Look(Placed([], t), b).None?
  {
    LookNone([], b);
  }

  /** Reading [s, s + n) of one file as a clone source and cloning the list to t of
      another copies the byte map: a hole of the source becomes the base object's byte,
      what lies past the source's size becomes a hole, and nothing outside the range changes. */
  lemma CopyRange(src: File, v: seq<Piece>, base: Addr, s: nat, n: nat, list: seq<Entry>, dst: File, t: nat, b: int)
    requires src.bytes == BytesOf(v) && n > 0 && src.size >= 0
    requires var hi := if s + n < src.size then s + n else src.size;
      if s < hi then Faithful(Placed(list, s), v, base, s, hi) else list == []
    ensures Proper(Clone(list, t, t + n)) <==> forall i | 0 <= i < |list| :: list[i].addr != END_MARK
    ensures CloneFits(dst, list, t, t + n) && forall i | 0 <= i < |list| :: list[i].offset < n
    ensures var g := Apply(dst, Clone(list, t, t + n)); var k := b - t;
      && (b in g.bytes <==> if 0 <= k < n then s + k < src.size else b in dst.bytes)
      && (b in g.bytes ==>
          g.bytes[b] ==
            if 0 <= k < n then (if s + k in src.bytes then src.bytes[s + k] else Loc(base, s + k)) else dst.bytes[b])
  {
    hide Look, Faithful, Tiles, Ordered, Placed, Mergeable;
    var hi := if s + n < src.size then s + n else src.size;
    var x := Placed(list, s);
    if s < hi {
      FaithfulAt(x, v, base, s, hi, b - t + s);
      Shifted(list, s, t, hi, b);
    } else {
      NonePlaced(t, b);
    }
  }
}
