/** The pieces of a layout after replace, one by one: which old pieces stay, which are cut, and which
    neighbours become one. */
module Rewrites {
  import opened Extents
  import opened ByteMap

  /** How many of the first pieces end by x. */
  ghost function CountBy(v: seq<Piece>, x: int): (k: nat)
    ensures k <= |v|
  {
    if v == [] || x < End(v[0]) then 0 else 1 + CountBy(v[1..], x)
  }

  lemma {:induction false} CountByIs(v: seq<Piece>, x: int, k: nat)
    requires FirstAfter(v, x, k)
    ensures CountBy(v, x) == k
  {
    if k > 0 {
      assert End(v[0]) <= x;
      CountByIs(v[1..], x, k - 1);
    }
  }

  /** The n-th piece and the one before it become one if they run into each other. */
  ghost function JoinAt(X: seq<Piece>, n: nat): seq<Piece> {
    if 0 < n < |X| && Mergeable(X[n - 1], X[n]) then X[..n - 1] + [Merged(X[n - 1], X[n])] + X[n + 1..] else X
  }

  /** How many old pieces stay before the range; one that the range starts in stays cut, unless it
      reaches past the range. */
  ghost function SeamIndex(v: seq<Piece>, start: int, end: int): (n: nat)
    ensures n <= |v|
  {
    var k := CountBy(v, start);
    if k < |v| && v[k].offF < start && End(v[k]) <= end then k + 1 else k
  }

  /** The old pieces before the range and the new ones; of an old piece that reaches past the range on both
      sides the part before it counts as new, and is joined to the first new piece. */
  ghost function HeadWith(v: seq<Piece>, w: seq<Piece>, start: int, end: int): seq<Piece> {
    var k := CountBy(v, start);
    if k < |v| && v[k].offF < start then
      if End(v[k]) <= end then v[..k] + [Cut(v[k], start)] + w
      else v[..k] + JoinAt([Cut(v[k], start)] + w, 1)
    else v[..k] + w
  }

  /** The old pieces after the range; one that the range ends in keeps its rest. */
  ghost function TailOf(v: seq<Piece>, end: int): seq<Piece> {
    var k := CountBy(v, end);
    if k < |v| && v[k].offF < end < End(v[k]) then [CutFront(v[k], end)] + v[k + 1..] else v[k..]
  }

  lemma TailIs(v: seq<Piece>, m: nat, end: int)
    requires FirstAfter(v, end, m)
    ensures TailOf(v, end) == if m < |v| && v[m].offF < end then [CutFront(v[m], end)] + v[m + 1..] else v[m..]
  {
    CountByIs(v, end, m);
  }

  /** Both sides of the end of the range; they are joined if there is a last new piece. */
  ghost function Closed(Y: seq<Piece>, T: seq<Piece>, last: bool): seq<Piece> {
    if last then JoinAt(Y + T, |Y|) else Y + T
  }

  ghost function Stitched(v: seq<Piece>, w: seq<Piece>, start: int, end: int, last: bool): seq<Piece> {
    Closed(JoinAt(HeadWith(v, w, start, end), SeamIndex(v, start, end)), TailOf(v, end), last)
  }

  /** The layout v after [start, end) is overwritten by w. */
  ghost function Rewritten(v: seq<Piece>, w: seq<Piece>, start: int, end: int): seq<Piece> {
    if v == [] then JoinAt(w, 1) else Stitched(v, w, start, end, w != [])
  }

  // ---- neighbours

  /** No two neighbours that meet at b run into each other. */
  ghost predicate ApartAt(X: seq<Piece>, b: int) {
    forall i | 0 <= i < |X| - 1 && X[i + 1].offF == b :: !Mergeable(X[i], X[i + 1])
  }

  /** Where the first new piece starts and where the last one ends no two neighbours run into each other. */
  ghost predicate SeamsApart(x: seq<Piece>, w: seq<Piece>) {
    w != [] ==> ApartAt(x, w[0].offF) && ApartAt(x, End(w[|w| - 1]))
  }

  /** Pieces of an ordered list start in different places. */
  lemma StartsDiffer(X: seq<Piece>, i: nat, j: nat)
    requires Ordered(X) && i < |X| && j < |X| && X[i].offF == X[j].offF
    ensures i == j
  {
    assert X[i].length > 0 && X[j].length > 0;
  }

  lemma JoinOrdered(X: seq<Piece>, n: nat)
    requires Ordered(X)
    ensures Ordered(JoinAt(X, n)) && |JoinAt(X, n)| <= |X|
    ensures X != [] ==> JoinAt(X, n) != [] && End(JoinAt(X, n)[|JoinAt(X, n)| - 1]) == End(X[|X| - 1])
  {
    if 0 < n < |X| && Mergeable(X[n - 1], X[n]) {
      var u, r := X[..n - 1], X[n + 1..];
      assert X == u + [X[n - 1], X[n]] + r;
      MergeSorted(u, X[n - 1], X[n], r);
      var y := JoinAt(X, n);
      forall i | 0 <= i < |y| ensures y[i].length > 0 {
        if i != n - 1 { assert y[i] == X[if i < n - 1 then i else i + 1]; }
      }
    }
  }

  /** What the pieces of a joined list were before. */
  lemma JoinedPiece(X: seq<Piece>, n: nat, i: nat)
    requires 0 < n < |X| && Mergeable(X[n - 1], X[n]) && i < |X| - 1
    ensures var y := JoinAt(X, n);
      && |y| == |X| - 1
      && y[i] == if i < n - 1 then X[i] else if i == n - 1 then Merged(X[n - 1], X[n]) else X[i + 1]
  {
  }

  lemma NotJoined(X: seq<Piece>, n: nat)
    requires !(0 < n < |X| && Mergeable(X[n - 1], X[n]))
    ensures JoinAt(X, n) == X
  {
  }

  /** Neighbours of a joined list run into each other only if they did before. */
  lemma JoinedPair(X: seq<Piece>, n: nat, i: nat, j: nat)
    requires 0 < n < |X| && Mergeable(X[n - 1], X[n]) && i < |X| - 2 && j == if i + 1 <= n - 1 then i + 1 else i + 2
    ensures var y := JoinAt(X, n);
      |y| == |X| - 1 && y[i + 1].offF == X[j].offF && (Mergeable(y[i], y[i + 1]) ==> Mergeable(X[j - 1], X[j]))
  {
    JoinedPiece(X, n, i);
    JoinedPiece(X, n, i + 1);
  }

  /** Joining separates what it does not join, and leaves apart what was. */
  lemma JoinApart(X: seq<Piece>, n: nat, b: int)
    requires Ordered(X)
    ensures n < |X| && X[n].offF == b ==> ApartAt(JoinAt(X, n), b)
    ensures ApartAt(X, b) ==> ApartAt(JoinAt(X, n), b)
  {
    hide Ordered, JoinAt;
    JoinOrdered(X, n);
    var y := JoinAt(X, n);
    if 0 < n < |X| && Mergeable(X[n - 1], X[n]) {
      JoinedPiece(X, n, 0);
      if ApartAt(X, b) {
        forall i | 0 <= i < |y| - 1 && y[i + 1].offF == b ensures !Mergeable(y[i], y[i + 1]) {
          var j := if i + 1 <= n - 1 then i + 1 else i + 2;
          JoinedPair(X, n, i, j);
          assert X[j].offF == b;
        }
      }
      if X[n].offF == b {
        forall k | 1 <= k < |y| ensures y[k].offF != b {
          JoinedPiece(X, n, k);
          if y[k].offF == b {
            StartsDiffer(X, if k <= n - 1 then k else k + 1, n);
            assert false;
          }
        }
      }
    } else {
      NotJoined(X, n);
      if n < |X| && X[n].offF == b {
        forall i | 0 <= i < |X| - 1 && X[i + 1].offF == b ensures !Mergeable(X[i], X[i + 1]) {
          StartsDiffer(X, i + 1, n);
        }
      }
    }
  }

  /** Pieces that start elsewhere do not matter. */
  lemma ApartConcat(a: seq<Piece>, c: seq<Piece>, b: int)
    requires forall i | 0 <= i < |a| :: a[i].offF != b
    requires c != [] ==> ApartAt(c, b) && (a == [] || c[0].offF != b)
    ensures ApartAt(a + c, b)
  {
    var X := a + c;
    forall i | 0 <= i < |X| - 1 && X[i + 1].offF == b ensures !Mergeable(X[i], X[i + 1]) {
      assert i + 1 >= |a|;
      if i >= |a| { assert X[i] == c[i - |a|] && X[i + 1] == c[i - |a| + 1]; }
    }
  }

  lemma ApartBefore(a: seq<Piece>, c: seq<Piece>, b: int)
    requires ApartAt(a, b) && forall i | 0 <= i < |c| :: c[i].offF != b
    ensures ApartAt(a + c, b)
  {
    var X := a + c;
    forall k | |a| <= k < |X| ensures X[k].offF != b { assert X[k] == c[k - |a|]; }
    forall i | 0 <= i < |X| - 1 && X[i + 1].offF == b ensures !Mergeable(X[i], X[i + 1]) {
      assert X[i] == a[i] && X[i + 1] == a[i + 1];
    }
  }

  // ---- the law of the seams

  /** The first piece to end after x, and what the count says of the pieces around it. */
  lemma {:induction false} CountByFacts(v: seq<Piece>, x: int)
    requires Ordered(v)
    ensures FirstAfter(v, x, CountBy(v, x))
  {
    if v != [] {
      if End(v[0]) <= x {
        var r := v[1..];
        CountByFacts(r, x);
        forall i | 0 <= i < CountBy(v, x) ensures End(v[i]) <= x { if i > 0 { assert v[i] == r[i - 1]; } }
        forall i | CountBy(v, x) <= i < |v| ensures x < End(v[i]) { assert v[i] == r[i - 1]; }
      } else {
        forall i | 0 <= i < |v| ensures x < End(v[i]) {
          assert v[i].length > 0 && (i > 0 ==> End(v[0]) <= v[i].offF);
        }
      }
    }
  }

  lemma OneOrdered(c: Piece)
    requires c.length > 0
    ensures Ordered([c])
  {
  }

  lemma ListedOrdered(w: seq<Piece>, start: int, end: int)
    requires Listed(w, start, end, None)
    ensures Ordered(w) && forall i | 0 <= i < |w| :: start <= w[i].offF && End(w[i]) <= end
  {
  }

  lemma UpTo(v: seq<Piece>, start: int, k: nat)
    requires Ordered(v) && FirstAfter(v, start, k)
    ensures k <= |v| && Ordered(v[..k]) && forall i | 0 <= i < k :: End(v[..k][i]) <= start && v[..k][i].offF < start
    ensures k < |v| ==> forall i | 0 <= i < k :: End(v[..k][i]) <= v[k].offF
  {
    forall i | 0 <= i < k ensures v[i].offF < start { assert v[i].length > 0; }
  }

  lemma CutUpTo(v: seq<Piece>, start: int, k: nat)
    requires Ordered(v) && FirstAfter(v, start, k) && k < |v| && v[k].offF < start
    ensures Cut(v[k], start).length > 0 && Ordered(v[..k] + [Cut(v[k], start)])
    ensures forall i | 0 <= i <= k :: End((v[..k] + [Cut(v[k], start)])[i]) <= start
  {
    UpTo(v, start, k);
    OneOrdered(Cut(v[k], start));
    OrderedConcat(v[..k], [Cut(v[k], start)], v[k].offF);
  }

  /** A joined list starts where it did. */
  lemma JoinFrom(X: seq<Piece>, n: nat)
    requires Ordered(X)
    ensures X != [] ==> JoinAt(X, n)[0].offF == X[0].offF && JoinAt(X, n)[0].addr == X[0].addr
    ensures forall i | 0 <= i < |JoinAt(X, n)| :: X != [] && X[0].offF <= JoinAt(X, n)[i].offF
    ensures forall i | 0 <= i < |JoinAt(X, n)| :: End(JoinAt(X, n)[i]) <= End(X[|X| - 1])
  {
    JoinOrdered(X, n);
    var y := JoinAt(X, n);
    forall i | 0 <= i < |y| ensures X[0].offF <= y[i].offF && End(y[i]) <= End(X[|X| - 1]) {
      assert y[i].length > 0 && y[0].length > 0 && y[|y| - 1].length > 0;
    }
  }

  /** The pieces before the range and the new ones, in order; the first new one starts apart from what it
      could not be joined to. */
  lemma HeadLaws(v: seq<Piece>, w: seq<Piece>, start: int, end: int)
    requires Ordered(v) && Listed(w, start, end, None) && w != []
    ensures var X, n := HeadWith(v, w, start, end), SeamIndex(v, start, end);
      && Ordered(X) && X != [] && End(X[|X| - 1]) == End(w[|w| - 1])
      && ApartAt(JoinAt(X, n), w[0].offF)
  {
    hide Mergeable, JoinAt, Ordered, CountBy;
    CountByFacts(v, start);
    var k, X, n := CountBy(v, start), HeadWith(v, w, start, end), SeamIndex(v, start, end);
    var u := v[..k];
    UpTo(v, start, k);
    ListedOrdered(w, start, end);
    if k < |v| && v[k].offF < start {
      var c := Cut(v[k], start);
      CutUpTo(v, start, k);
      if End(v[k]) <= end {
        OrderedConcat(u + [c], w, start);
        assert X[n] == w[0];
        JoinApart(X, n, w[0].offF);
      } else {
        var Z := JoinAt([c] + w, 1);
        OneOrdered(c);
        OrderedConcat([c], w, start);
        JoinOrdered([c] + w, 1);
        JoinApart([c] + w, 1, w[0].offF);
        JoinFrom([c] + w, 1);
        assert ([c] + w)[1] == w[0];
        OrderedConcat(u, Z, v[k].offF);
        ApartConcat(u, Z, w[0].offF);
        JoinApart(X, n, w[0].offF);
      }
    } else {
      OrderedConcat(u, w, start);
      assert X[n] == w[0];
      JoinApart(X, n, w[0].offF);
    }
  }

  lemma NextAfter(v: seq<Piece>, k: nat)
    requires Ordered(v) && k < |v|
    ensures k + 1 < |v| ==> End(v[k]) <= v[k + 1].offF
  {
  }

  lemma FromOn(v: seq<Piece>, k: nat, x: int)
    requires Ordered(v) && k <= |v| && (k < |v| ==> x <= v[k].offF)
    ensures Ordered(v[k..]) && forall i | 0 <= i < |v[k..]| :: x <= v[k..][i].offF
  {
    forall i | 0 < i < |v[k..]| ensures x <= v[k..][i].offF { assert End(v[k]) <= v[k + i].offF && v[k].length > 0; }
  }

  lemma TailLaws(v: seq<Piece>, end: int)
    requires Ordered(v)
    ensures var T := TailOf(v, end); Ordered(T) && forall i | 0 <= i < |T| :: end <= T[i].offF
  {
    hide Ordered, CountBy;
    CountByFacts(v, end);
    var k := CountBy(v, end);
    if k < |v| && v[k].offF < end {
      var c := CutFront(v[k], end);
      NextAfter(v, k);
      FromOn(v, k + 1, End(c));
      OneOrdered(c);
      OrderedConcat([c], v[k + 1..], End(c));
    } else {
      FromOn(v, k, end);
    }
  }

  lemma ApartPast(X: seq<Piece>, b: int)
    requires forall i | 0 <= i < |X| :: X[i].offF != b
    ensures ApartAt(X, b)
  {
  }

  /** Where the head ends, the tail is apart from it once they were joined if possible. */
  lemma ClosedLaws(Y: seq<Piece>, T: seq<Piece>, end: int, b: int)
    requires Ordered(Y) && Ordered(T) && Y != [] && End(Y[|Y| - 1]) <= end && b < end
    requires forall i | 0 <= i < |T| :: end <= T[i].offF
    ensures ApartAt(Y, b) ==> ApartAt(Closed(Y, T, true), b)
    ensures ApartAt(Closed(Y, T, true), End(Y[|Y| - 1])) && Ordered(Closed(Y, T, true))
  {
    hide JoinAt, Mergeable, ApartAt;
    var X, e := Y + T, End(Y[|Y| - 1]);
    forall i | 0 <= i < |Y| ensures Y[i].offF < e && End(Y[i]) <= end {
      assert Y[i].length > 0 && Y[|Y| - 1].length > 0;
    }
    OrderedConcat(Y, T, end);
    JoinOrdered(X, |Y|);
    if ApartAt(Y, b) {
      ApartBefore(Y, T, b);
      JoinApart(X, |Y|, b);
    }
    if T != [] && T[0].offF == e {
      assert X[|Y|] == T[0];
      JoinApart(X, |Y|, e);
    } else {
      forall i | 0 <= i < |X| ensures X[i].offF != e {
        if i >= |Y| { assert X[i] == T[i - |Y|] && T[0].length > 0 && (i > |Y| ==> End(T[0]) <= T[i - |Y|].offF); }
      }
      ApartPast(X, e);
      JoinApart(X, |Y|, e);
    }
  }

  lemma FirstStarts(w: seq<Piece>)
    requires Ordered(w) && w != []
    ensures w[0].offF < End(w[0]) <= End(w[|w| - 1])
  {
    assert w[0].length > 0 && w[|w| - 1].length > 0;
    if |w| > 1 { assert End(w[0]) <= w[|w| - 1].offF; }
  }

  lemma OnlyFirstStarts(x: seq<Piece>, b: int)
    requires Ordered(x) && (x != [] ==> x[0].offF == b)
    ensures ApartAt(x, b)
  {
    forall k | 1 <= k < |x| ensures x[k].offF != b {
      assert x[0].length > 0 && End(x[0]) <= x[k].offF;
    }
  }

  lemma NoneStartsAtEnd(x: seq<Piece>)
    requires Ordered(x) && x != []
    ensures ApartAt(x, End(x[|x| - 1]))
  {
    forall k | 0 <= k < |x| ensures x[k].offF < End(x[|x| - 1]) {
      assert x[k].length > 0 && x[|x| - 1].length > 0;
    }
  }

  /** After replace no two neighbours run into each other where the first new piece starts and where the
      last one ends. */
  lemma RewrittenApart(v: seq<Piece>, w: seq<Piece>, start: int, end: int)
    requires Ordered(v) && Listed(w, start, end, None)
    ensures SeamsApart(Rewritten(v, w, start, end), w)
  {
    hide JoinAt, Mergeable, ApartAt, HeadWith, SeamIndex, TailOf, Listed, Ordered;
    ListedOrdered(w, start, end);
    if w != [] {
      var b, e := w[0].offF, End(w[|w| - 1]);
      FirstStarts(w);
      if v == [] {
        JoinFrom(w, 1);
        JoinOrdered(w, 1);
        OnlyFirstStarts(JoinAt(w, 1), b);
        NoneStartsAtEnd(JoinAt(w, 1));
      } else {
        var X, n, T := HeadWith(v, w, start, end), SeamIndex(v, start, end), TailOf(v, end);
        HeadLaws(v, w, start, end);
        TailLaws(v, end);
        JoinOrdered(X, n);
        ClosedLaws(JoinAt(X, n), T, end, b);
      }
    }
  }

  // ---- what stays

  /** Where the pieces start. */
  ghost function Starts(X: seq<Piece>): set<int> {
    set i | 0 <= i < |X| :: X[i].offF
  }

  lemma JoinStarts(X: seq<Piece>, n: nat)
    ensures Starts(JoinAt(X, n)) <= Starts(X)
  {
    if 0 < n < |X| && Mergeable(X[n - 1], X[n]) {
      var y := JoinAt(X, n);
      forall b | b in Starts(y) ensures b in Starts(X) {
        var i :| 0 <= i < |y| && y[i].offF == b;
        assert b == X[if i <= n - 1 then i else i + 1].offF;
      }
    }
  }

  lemma StartsConcat(a: seq<Piece>, c: seq<Piece>)
    ensures Starts(a + c) == Starts(a) + Starts(c)
  {
    var X := a + c;
    forall b | b in Starts(a) + Starts(c) ensures b in Starts(X) {
      if b in Starts(a) {
        var i :| 0 <= i < |a| && a[i].offF == b;
        assert X[i].offF == b;
      } else {
        var i :| 0 <= i < |c| && c[i].offF == b;
        assert X[|a| + i].offF == b;
      }
    }
  }

  lemma StartsPart(v: seq<Piece>, k: nat)
    requires k <= |v|
    ensures Starts(v[..k]) <= Starts(v) && Starts(v[k..]) <= Starts(v)
  {
    assert v == v[..k] + v[k..];
    StartsConcat(v[..k], v[k..]);
  }

  lemma StartsOne(p: Piece)
    ensures Starts([p]) == {p.offF}
  {
    assert [p][0] == p;
  }

  lemma StartAmong(v: seq<Piece>, k: nat)
    requires k < |v|
    ensures v[k].offF in Starts(v)
  {
  }

  lemma HeadStarts(v: seq<Piece>, w: seq<Piece>, start: int, end: int)
    ensures Starts(HeadWith(v, w, start, end)) <= Starts(v) + Starts(w)
  {
    hide Starts, JoinAt;
    var k := CountBy(v, start);
    StartsPart(v, k);
    if k < |v| && v[k].offF < start {
      var c := Cut(v[k], start);
      StartsOne(c);
      StartAmong(v, k);
      StartsConcat(v[..k], [c]);
      StartsConcat(v[..k] + [c], w);
      StartsConcat([c], w);
      JoinStarts([c] + w, 1);
      StartsConcat(v[..k], JoinAt([c] + w, 1));
    } else {
      StartsConcat(v[..k], w);
    }
  }

  lemma TailStarts(v: seq<Piece>, end: int)
    ensures Starts(TailOf(v, end)) <= Starts(v) + {end}
  {
    hide Starts;
    var k := CountBy(v, end);
    StartsPart(v, k);
    if k < |v| && v[k].offF < end < End(v[k]) {
      StartsPart(v, k + 1);
      StartsOne(CutFront(v[k], end));
      StartsConcat([CutFront(v[k], end)], v[k + 1..]);
    }
  }

  /** Every piece starts where an old or a new one did, or at the end of the range. */
  lemma RewrittenStarts(v: seq<Piece>, w: seq<Piece>, start: int, end: int)
    ensures Starts(Rewritten(v, w, start, end)) <= Starts(v) + Starts(w) + {end}
  {
    hide Starts, HeadWith, SeamIndex, TailOf, JoinAt;
    var X, n, T := HeadWith(v, w, start, end), SeamIndex(v, start, end), TailOf(v, end);
    var Y := JoinAt(X, n);
    HeadStarts(v, w, start, end);
    JoinStarts(X, n);
    TailStarts(v, end);
    StartsConcat(Y, T);
    JoinStarts(Y + T, |Y|);
    JoinStarts(w, 1);
  }

  lemma JoinHas(X: seq<Piece>, n: nat, p: Piece)
    requires p in X && (0 < n < |X| && Mergeable(X[n - 1], X[n]) ==> p != X[n - 1] && p != X[n])
    ensures p in JoinAt(X, n)
  {
    var i :| 0 <= i < |X| && X[i] == p;
    if 0 < n < |X| && Mergeable(X[n - 1], X[n]) {
      assert JoinAt(X, n)[if i < n then i else i - 1] == X[i];
    }
  }

  lemma ClosedHas(Y: seq<Piece>, T: seq<Piece>, last: bool, p: Piece)
    requires p in Y + T
    requires last && Y != [] && T != [] && Mergeable(Y[|Y| - 1], T[0]) ==> p != Y[|Y| - 1] && p != T[0]
    ensures p in Closed(Y, T, last)
  {
    hide Mergeable, JoinAt;
    var X := Y + T;
    if last {
      if Y != [] && T != [] { assert X[|Y| - 1] == Y[|Y| - 1] && X[|Y|] == T[0]; }
      JoinHas(X, |Y|, p);
    }
  }

  lemma Precedes(v: seq<Piece>, i: nat, j: nat)
    requires Ordered(v) && i < j < |v|
    ensures End(v[i]) <= v[j].offF < End(v[j]) && v[i].offF < v[j].offF
  {
    assert v[i].length > 0 && v[j].length > 0;
  }

  /** The first piece of a joined list begins where, and in the object where, it did. */
  lemma JoinSource(X: seq<Piece>, n: nat)
    requires X != []
    ensures JoinAt(X, n) != [] && JoinAt(X, n)[0].(length := 0) == X[0].(length := 0)
  {
  }

  lemma HeadOld(v: seq<Piece>, w: seq<Piece>, start: int, end: int, i: nat)
    requires Ordered(v) && Listed(w, start, end, None) && start < end
    requires i < |v| && End(v[i]) < start && (i + 1 < |v| ==> !Mergeable(v[i], v[i + 1]))
    ensures v[i] in JoinAt(HeadWith(v, w, start, end), SeamIndex(v, start, end))
  {
    hide JoinAt, CountBy, Ordered;
    CountByFacts(v, start);
    var k, X, n := CountBy(v, start), HeadWith(v, w, start, end), SeamIndex(v, start, end);
    assert i < k && X[i] == v[i];
    UpTo(v, start, k);
    ListedOrdered(w, start, end);
    if k < |v| && v[k].offF < start && end < End(v[k]) {
      var Z := [Cut(v[k], start)] + w;
      CutUpTo(v, start, k);
      OneOrdered(Cut(v[k], start));
      OrderedConcat([Cut(v[k], start)], w, start);
      JoinOrdered(Z, 1);
      JoinFrom(Z, 1);
      JoinSource(Z, 1);
      assert X[k] == JoinAt(Z, 1)[0];
      if k > 0 { assert X[k - 1] == v[k - 1]; }
      if i < k - 1 { Precedes(v, i, k - 1); }
    } else if k < |v| && v[k].offF < start {
      CutUpTo(v, start, k);
      assert X[k] == Cut(v[k], start);
      if w != [] { assert X[k + 1] == w[0]; }
    } else {
      if w != [] { assert X[k] == w[0]; }
      if k > 0 { assert X[k - 1] == v[k - 1]; }
      if i < k - 1 { Precedes(v, i, k - 1); }
    }
    JoinHas(X, n, v[i]);
  }

  lemma MeetsAt(Y: seq<Piece>, T: seq<Piece>)
    ensures Y != [] && T != [] && Mergeable(Y[|Y| - 1], T[0]) ==> End(Y[|Y| - 1]) == T[0].offF
  {
  }

  /** Old pieces that end before the range stay, but for one that runs into the piece the range cuts. */
  lemma OldBeforeStays(v: seq<Piece>, w: seq<Piece>, start: int, end: int, i: nat)
    requires Ordered(v) && Listed(w, start, end, None) && start < end
    requires i < |v| && End(v[i]) < start && (i + 1 < |v| ==> !Mergeable(v[i], v[i + 1]))
    ensures v[i] in Rewritten(v, w, start, end)
  {
    hide JoinAt, HeadWith, SeamIndex, TailOf, Ordered, Mergeable;
    var X, n, T := HeadWith(v, w, start, end), SeamIndex(v, start, end), TailOf(v, end);
    HeadOld(v, w, start, end, i);
    TailLaws(v, end);
    MeetsAt(JoinAt(X, n), T);
    ClosedHas(JoinAt(X, n), T, w != [], v[i]);
  }

  /** Old pieces that start after the range stay. */
  lemma OldAfterStays(v: seq<Piece>, w: seq<Piece>, start: int, end: int, i: nat)
    requires Ordered(v) && Listed(w, start, end, None) && start < end
    requires i < |v| && end < v[i].offF
    ensures v[i] in Rewritten(v, w, start, end)
  {
    hide JoinAt, HeadWith, SeamIndex, Ordered, Mergeable;
    var X, n, T := HeadWith(v, w, start, end), SeamIndex(v, start, end), TailOf(v, end);
    var k := CountBy(v, end);
    CountByFacts(v, end);
    assert v[i] in T;
    if w != [] {
      HeadLaws(v, w, start, end);
      JoinOrdered(X, n);
      ListedOrdered(w, start, end);
      MeetsAt(JoinAt(X, n), T);
    }
    ClosedHas(JoinAt(X, n), T, w != [], v[i]);
  }

  /** New pieces between the first and the last stay. */
  lemma NewStays(v: seq<Piece>, w: seq<Piece>, start: int, end: int, i: nat)
    requires Ordered(v) && v != [] && Listed(w, start, end, None) && start < end && 0 < i < |w| - 1
    ensures w[i] in Rewritten(v, w, start, end)
  {
    hide JoinAt, CountBy, Ordered, Mergeable, TailOf;
    CountByFacts(v, start);
    var k, X, n, T := CountBy(v, start), HeadWith(v, w, start, end), SeamIndex(v, start, end), TailOf(v, end);
    ListedOrdered(w, start, end);
    Precedes(w, 0, i);
    Precedes(w, i, |w| - 1);
    HeadLaws(v, w, start, end);
    JoinOrdered(X, n);
    TailLaws(v, end);
    if k < |v| && v[k].offF < start && end < End(v[k]) {
      var Z := [Cut(v[k], start)] + w;
      assert Z[1] == w[0] && Z[0] == Cut(v[k], start) && Z[i + 1] == w[i];
      JoinHas(Z, 1, w[i]);
      JoinSource(Z, 1);
      if k > 0 { UpTo(v, start, k); }
      assert X[k] == JoinAt(Z, 1)[0];
    } else if k < |v| && v[k].offF < start {
      assert X[k + 1] == w[0] && X[k + 1 + i] == w[i];
    } else {
      assert X[k] == w[0] && X[k + i] == w[i];
      UpTo(v, start, k);
    }
    JoinHas(X, n, w[i]);
    MeetsAt(JoinAt(X, n), T);
    ClosedHas(JoinAt(X, n), T, true, w[i]);
  }

  // ---- how many

  lemma GapAfter(u: seq<Piece>, a: Piece, p: Piece, b: Piece, r: seq<Piece>)
    requires Ordered(u + [a, b] + r) && p.length > 0 && Mergeable(a, p) && Mergeable(p, b)
    ensures FirstAfter(u + [a, b] + r, p.offF, |u| + 1) && FirstAfter(u + [a, b] + r, End(p), |u| + 1)
  {
    var v, k := u + [a, b] + r, |u| + 1;
    assert v[k - 1] == a && v[k] == b;
    forall i | 0 <= i < k ensures End(v[i]) <= p.offF {
      if i < k - 1 { Precedes(v, i, k - 1); }
    }
    forall i | k <= i < |v| ensures End(p) < End(v[i]) {
      if i > k { Precedes(v, k, i); } else { assert v[k].length > 0; }
    }
  }

  /** A write that fills a gap between two pieces that it continues and that continue it makes the three one. */
  lemma GapClosed(u: seq<Piece>, a: Piece, p: Piece, b: Piece, r: seq<Piece>)
    requires Ordered(u + [a, b] + r) && p.length > 0 && Mergeable(a, p) && Mergeable(p, b)
    ensures Rewritten(u + [a, b] + r, [p], p.offF, End(p)) == u + [Merged(Merged(a, p), b)] + r
  {
    hide Ordered, CountBy;
    var v, k := u + [a, b] + r, |u| + 1;
    GapAfter(u, a, p, b, r);
    CountByIs(v, p.offF, k);
    CountByIs(v, End(p), k);
    assert v[k] == b && v[..k] == u + [a] && v[k..] == [b] + r;
    var X := u + [a] + [p];
    assert X[k - 1] == a && X[k] == p && X[..k - 1] == u && X[k + 1..] == [];
    var Y := u + [Merged(a, p)];
    assert JoinAt(X, k) == Y;
    var Z := Y + ([b] + r);
    assert Z[k - 1] == Merged(a, p) && Z[k] == b && Z[..k - 1] == u && Z[k + 1..] == r;
  }
}
