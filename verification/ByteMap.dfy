/** What a layout means: a partial map from file offsets to object offsets. */
module ByteMap {
  import opened Extents

  datatype Loc = Loc(addr: Addr, off: int)
  datatype Option<T> = None | Some(value: T)

  ghost function End(p: Piece): int { p.offF + p.length }

  ghost predicate Covers(p: Piece, b: int) { p.offF <= b < End(p) }

  ghost function LocIn(p: Piece, b: int): Loc { Loc(p.addr, p.offDo + (b - p.offF)) }

  /** Where byte b of the file lives. */
  ghost function Look(v: seq<Piece>, b: int): Option<Loc> {
    if v == [] then None
    else if Covers(v[0], b) then Some(LocIn(v[0], b))
    else Look(v[1..], b)
  }

  /** Disjoint and in file order; pieces may be empty. */
  ghost predicate Sorted(v: seq<Piece>) {
    forall i, j | 0 <= i < j < |v| :: End(v[i]) <= v[j].offF
  }

  ghost predicate Positive(v: seq<Piece>) {
    forall i | 0 <= i < |v| :: v[i].length > 0
  }

  /** Non-empty, disjoint and in file order. */
  ghost predicate Ordered(v: seq<Piece>) {
    Positive(v) && Sorted(v)
  }

  ghost predicate Within(v: seq<Piece>, lo: int, hi: int) {
    forall i | 0 <= i < |v| :: lo <= v[i].offF && End(v[i]) <= hi
  }

  // ---- lookups

  lemma {:induction false} LookConcat(v: seq<Piece>, w: seq<Piece>, b: int)
    ensures Look(v + w, b) == if Look(v, b).Some? then Look(v, b) else Look(w, b)
  {
    if v == [] {
      assert v + w == w;
    } else {
      assert (v + w)[1..] == v[1..] + w;
      LookConcat(v[1..], w, b);
    }
  }

  lemma {:induction false} LookNone(v: seq<Piece>, b: int)
    requires forall i | 0 <= i < |v| :: !Covers(v[i], b)
    ensures Look(v, b) == None
  {
    if v != [] { LookNone(v[1..], b); }
  }

  lemma {:induction false} LookCovers(x: seq<Piece>, b: int)
    requires Look(x, b).Some?
    ensures exists i :: 0 <= i < |x| && Covers(x[i], b) && Look(x, b).value == LocIn(x[i], b)
  {
    if !Covers(x[0], b) {
      LookCovers(x[1..], b);
      var i :| 0 <= i < |x[1..]| && Covers(x[1..][i], b) && Look(x[1..], b).value == LocIn(x[1..][i], b);
      assert x[i + 1] == x[1..][i];
    }
  }

  lemma {:induction false} LookAt(v: seq<Piece>, i: nat, b: int)
    requires Sorted(v) && i < |v| && Covers(v[i], b)
    ensures Look(v, b) == Some(LocIn(v[i], b))
  {
    if i > 0 {
      assert End(v[0]) <= v[i].offF;
      LookAt(v[1..], i - 1, b);
    }
  }

  lemma LookOutside(v: seq<Piece>, lo: int, hi: int, b: int)
    requires Within(v, lo, hi) && !(lo <= b < hi)
    ensures Look(v, b) == None
  {
    LookNone(v, b);
  }

  lemma OrderedParts(v: seq<Piece>, k: nat)
    requires Ordered(v) && k <= |v|
    ensures Ordered(v[..k]) && Ordered(v[k..]) && v == v[..k] + v[k..]
  {
  }

  lemma SortedConcat(v: seq<Piece>, w: seq<Piece>, m: int)
    requires Sorted(v) && Sorted(w)
    requires forall i | 0 <= i < |v| :: End(v[i]) <= m
    requires forall i | 0 <= i < |w| :: m <= w[i].offF
    ensures Sorted(v + w)
  {
  }

  lemma OrderedConcat(v: seq<Piece>, w: seq<Piece>, m: int)
    requires Ordered(v) && Ordered(w)
    requires forall i | 0 <= i < |v| :: End(v[i]) <= m
    requires forall i | 0 <= i < |w| :: m <= w[i].offF
    ensures Ordered(v + w)
  {
  }

  // ---- merging

  /** p runs straight into q, in the file and in the object. */
  ghost predicate Mergeable(p: Piece, q: Piece) {
    p.addr == q.addr && End(p) == q.offF && p.offDo + p.length == q.offDo
  }

  ghost function Merged(p: Piece, q: Piece): Piece {
    p.(length := p.length + q.length)
  }

  lemma MergeLook(p: Piece, q: Piece, b: int)
    requires Mergeable(p, q)
    ensures Look([Merged(p, q)], b) == Look([p, q], b)
  {
    assert [p, q][1..] == [q] && [q][1..] == [] && [Merged(p, q)][1..] == [];
  }

  ghost function MergedFrom(i: nat, n: nat): nat { if i <= n then i else i + 1 }

  lemma MergeSorted(v: seq<Piece>, p: Piece, q: Piece, w: seq<Piece>)
    requires Sorted(v + [p, q] + w) && Mergeable(p, q)
    ensures Sorted(v + [Merged(p, q)] + w)
  {
    var x, y := v + [p, q] + w, v + [Merged(p, q)] + w;
    forall i, j | 0 <= i < j < |y| ensures End(y[i]) <= y[j].offF {
      assert y[j].offF == x[MergedFrom(j, |v|)].offF;
      assert End(y[i]) == End(x[if i < |v| then i else i + 1]);
    }
  }

  lemma MergeKeeps(v: seq<Piece>, p: Piece, q: Piece, w: seq<Piece>)
    requires Sorted(v + [p, q] + w) && Mergeable(p, q)
    ensures Sorted(v + [Merged(p, q)] + w)
    ensures forall b: int :: Look(v + [Merged(p, q)] + w, b) == Look(v + [p, q] + w, b)
  {
    hide Sorted, Look;
    MergeSorted(v, p, q, w);
    forall b: int ensures Look(v + [Merged(p, q)] + w, b) == Look(v + [p, q] + w, b) {
      LookConcat(v + [p, q], w, b);
      LookConcat(v + [Merged(p, q)], w, b);
      LookConcat(v, [p, q], b);
      LookConcat(v, [Merged(p, q)], b);
      MergeLook(p, q, b);
    }
  }

  // ---- replacing a range

  /** No piece of X is empty but the last one, and that one only if it is z. */
  ghost predicate Filled(X: seq<Piece>, z: Option<Piece>) {
    match z
    case None => Positive(X)
    case Some(p) =>
      X != [] && X[|X| - 1] == p && p.length == 0 && forall i | 0 <= i < |X| - 1 :: X[i].length > 0
  }

  /** A list fit to overwrite [start, end), but for an empty last piece z at `end`. */
  ghost predicate Listed(A: seq<Piece>, start: int, end: int, z: Option<Piece>) {
    Sorted(A) && Within(A, start, end) && Filled(A, z) && (z.Some? ==> z.value.offF == end)
  }

  /** X holds everything below `end`: the old bytes below start, then the alternatives. */
  ghost predicate IsHead(X: seq<Piece>, v: seq<Piece>, A: seq<Piece>, start: int, end: int, z: Option<Piece>) {
    && Sorted(X) && (forall i | 0 <= i < |X| :: End(X[i]) <= end) && Filled(X, z)
    && forall b: int :: Look(X, b) == if b < start then Look(v, b) else Look(A, b)
  }

  /** S holds the old bytes from `end` on. */
  ghost predicate IsTail(S: seq<Piece>, v: seq<Piece>, end: int) {
    && Ordered(S) && (forall i | 0 <= i < |S| :: end <= S[i].offF)
    && forall b: int :: Look(S, b) == if b < end then None else Look(v, b)
  }

  /** The byte map of v with [start, end) overwritten by A. */
  ghost predicate Overwrites(w: seq<Piece>, v: seq<Piece>, A: seq<Piece>, start: int, end: int) {
    forall b: int :: Look(w, b) == if start <= b < end then Look(A, b) else Look(v, b)
  }

  lemma Assemble(X: seq<Piece>, S: seq<Piece>, v: seq<Piece>, A: seq<Piece>, start: int, end: int, z: Option<Piece>)
    requires IsHead(X, v, A, start, end, z) && IsTail(S, v, end) && start <= end && Within(A, start, end)
    ensures Sorted(X + S) && Overwrites(X + S, v, A, start, end)
    ensures Ordered(X + S) <==> z.None?
  {
    SortedConcat(X, S, end);
    forall b: int ensures Look(X + S, b) == if start <= b < end then Look(A, b) else Look(v, b) {
      LookConcat(X, S, b);
      if b >= end { LookOutside(A, start, end, b); }
    }
    if z.Some? { assert (X + S)[|X| - 1].length == 0; }
  }

  /** There is no empty last piece, or the old layout goes on at `end` where it would. */
  ghost predicate Absorbed(z: Option<Piece>, v: seq<Piece>, end: int) {
    z.Some? ==> Look(v, end) == Some(Loc(z.value.addr, z.value.offDo))
  }

  ghost predicate EndBy(v: seq<Piece>, n: nat, x: int) {
    n <= |v| && forall i | 0 <= i < n :: End(v[i]) <= x
  }

  /** The empty piece is the only new one, and the old layout, which ends by `start`, runs into it. */
  ghost predicate Swallowed(z: Option<Piece>, v: seq<Piece>, start: int, k: nat) {
    z.Some? && k == 1 && EndBy(v, |v|, start) && v != [] && Mergeable(v[|v| - 1], z.value)
  }

  /** Overwriting by w leaves no empty extent: there is no empty last piece; or the old byte at `end`
      lives where that piece starts; or the layout was empty and w is one piece that runs into it. */
  ghost predicate Settles(z: Option<Piece>, v: seq<Piece>, w: seq<Piece>, end: int) {
    z.Some? ==>
      || Look(v, end) == Some(Loc(z.value.addr, z.value.offDo))
      || (v == [] && |w| == 2 && Mergeable(w[0], z.value))
  }

  lemma OrderedSorted(v: seq<Piece>)
    requires Ordered(v)
    ensures Sorted(v)
  {
  }

  /** How many pieces of v, from the m-th on, lie inside [start, end). */
  ghost function Contained(v: seq<Piece>, m: nat, start: int, end: int): nat
    decreases |v| - m
  {
    if m >= |v| then 0
    else (if start <= v[m].offF && End(v[m]) <= end then 1 else 0) + Contained(v, m + 1, start, end)
  }

  /** The first new piece begins the range and continues what lies before it. */
  ghost predicate Continues(v: seq<Piece>, w: seq<Piece>, start: int) {
    w != [] && w[0].offF == start && Look(v, start - 1) == Some(Loc(w[0].addr, w[0].offDo - 1))
  }

  /** The assertions hold while v is overwritten by w: there is no empty last piece; or the layout
      was empty and that piece is not alone; or there are more new pieces to place than old ones
      to replace, so that the empty piece replaces none. */
  ghost predicate Stands(z: Option<Piece>, v: seq<Piece>, w: seq<Piece>, start: int, end: int) {
    z.Some? ==>
      if v == [] then |w| > 1
      else |w| > Contained(v, 0, start, end) + if Continues(v, w, start) then 1 else 0
  }

  /** The first n pieces start before the range; the next one starts inside it or reaches past it. */
  ghost predicate CutAt(v: seq<Piece>, n: nat, start: int, end: int) {
    && n <= |v| && (forall i | 0 <= i < n :: v[i].offF < start)
    && (n < |v| ==> start <= v[n].offF || end < End(v[n]))
  }

  lemma {:induction false} NoneContained(v: seq<Piece>, m: nat, start: int, end: int)
    requires forall i | m <= i < |v| :: end < End(v[i])
    ensures Contained(v, m, start, end) == 0
    decreases |v| - m
  {
    if m < |v| { NoneContained(v, m + 1, start, end); }
  }

  lemma {:induction false} SomeContained(v: seq<Piece>, m: nat, i: nat, start: int, end: int)
    requires m <= i < |v| && start <= v[i].offF && End(v[i]) <= end
    ensures Contained(v, m, start, end) > 0
    decreases |v| - m
  {
    if m < i { SomeContained(v, m + 1, i, start, end); }
  }

  lemma {:induction false} ContainedFrom(v: seq<Piece>, m: nat, n: nat, start: int, end: int)
    requires m <= n <= |v| && forall i | 0 <= i < n :: v[i].offF < start
    ensures Contained(v, m, start, end) == Contained(v, n, start, end)
    decreases n - m
  {
    if m < n { ContainedFrom(v, m + 1, n, start, end); }
  }

  /** Only pieces from the cut on lie inside the range, and none if the one there reaches past it. */
  lemma ContainedCut(v: seq<Piece>, n: nat, start: int, end: int)
    requires Ordered(v) && CutAt(v, n, start, end)
    ensures Contained(v, 0, start, end) == Contained(v, n, start, end)
    ensures n < |v| && end < End(v[n]) ==> Contained(v, n, start, end) == 0
  {
    ContainedFrom(v, 0, n, start, end);
    if n < |v| && end < End(v[n]) {
      forall i | n <= i < |v| ensures end < End(v[i]) {
        if i > n { assert End(v[n]) <= v[i].offF; }
      }
      NoneContained(v, n, start, end);
    }
  }

  /** One more victim. */
  lemma ContainedNext(v: seq<Piece>, n: nat, m: nat, start: int, end: int)
    requires Ordered(v) && CutAt(v, n, start, end) && n <= m <= |v| && (m > n ==> End(v[n]) <= end)
    ensures m < |v| && End(v[m]) <= end ==> Contained(v, m, start, end) == 1 + Contained(v, m + 1, start, end)
    ensures m < |v| && (end < End(v[m]) || end <= v[m].offF) ==> Contained(v, m, start, end) == 0
    ensures m == |v| ==> Contained(v, m, start, end) == 0
  {
    if m < |v| {
      assert v[m].length > 0;
      if m > n { assert End(v[n]) <= v[m].offF && v[n].length > 0; }
      if end < End(v[m]) {
        forall i | m <= i < |v| ensures end < End(v[i]) {
          if i > m { assert End(v[m]) <= v[i].offF; }
        }
        NoneContained(v, m, start, end);
      }
    }
  }

  /** The first index whose piece ends after `start`. */
  ghost predicate FirstAfter(v: seq<Piece>, start: int, k: nat) {
    && k <= |v|
    && (forall i | 0 <= i < k :: End(v[i]) <= start)
    && (forall i | k <= i < |v| :: start < End(v[i]))
  }

  ghost predicate EndsAfter(v: seq<Piece>, n: nat, x: int) {
    forall i | n <= i < |v| :: x < End(v[i])
  }

  ghost predicate StartAfter(v: seq<Piece>, n: nat, x: int) {
    n <= |v| && forall i | n <= i < |v| :: x < v[i].offF
  }

  /** One step of the binary search for FirstAfter, at the r-th piece. */
  lemma SearchStep(v: seq<Piece>, lo: nat, r: nat, hi: nat, x: int)
    requires Sorted(v) && lo <= r < hi <= |v| && EndBy(v, lo, x) && StartAfter(v, hi, x)
    ensures v[r].offF <= x < End(v[r]) ==> FirstAfter(v, x, r)
    ensures x < v[r].offF ==> StartAfter(v, r, x) && (lo == r ==> FirstAfter(v, x, r))
    ensures End(v[r]) <= x ==> EndBy(v, r + 1, x) && (r + 1 == hi ==> FirstAfter(v, x, r + 1))
    ensures Positive(v) ==> v[r].length > 0 && (r + 1 < |v| ==> v[r].offF < v[r + 1].offF)
    ensures End(v[r]) <= x && r + 1 == hi && hi < |v| ==> x < v[hi].offF
  {
  }

  lemma FilledAfter(u: seq<Piece>, A: seq<Piece>, z: Option<Piece>)
    requires Positive(u) && Filled(A, z)
    ensures Filled(u + A, z)
  {
  }

  lemma HeadAtBoundary(v: seq<Piece>, A: seq<Piece>, k: nat, start: int, end: int, z: Option<Piece>)
    requires Ordered(v) && FirstAfter(v, start, k) && start <= end && Listed(A, start, end, z)
    requires k < |v| ==> start <= v[k].offF
    ensures IsHead(v[..k] + A, v, A, start, end, z)
  {
    var X := v[..k] + A;
    OrderedParts(v, k);
    SortedConcat(v[..k], A, start);
    FilledAfter(v[..k], A, z);
    forall b: int ensures Look(X, b) == if b < start then Look(v, b) else Look(A, b) {
      LookConcat(v[..k], A, b);
      LookConcat(v[..k], v[k..], b);
      if b < start {
        LookOutside(A, start, end, b);
        LookNone(v[k..], b);
      } else {
        LookNone(v[..k], b);
      }
    }
  }

  /** The part of p below `start`. */
  ghost function Cut(p: Piece, start: int): Piece
    requires p.offF <= start
  {
    p.(length := start - p.offF)
  }

  /** The part of p from `end` on. */
  ghost function CutFront(p: Piece, end: int): Piece
    requires p.offF <= end < End(p)
  {
    p.(offF := end, offDo := p.offDo + (end - p.offF), length := End(p) - end)
  }

  lemma AllBeyond(v: seq<Piece>, m: nat, end: int)
    requires Ordered(v) && 0 < m <= |v| && end <= End(v[m - 1])
    ensures forall i | 0 <= i < |v[m..]| :: end <= v[m..][i].offF
  {
    forall i | 0 <= i < |v[m..]| ensures end <= v[m..][i].offF {
      assert v[m..][i] == v[m + i];
    }
  }

  lemma SplitAround<T>(v: seq<T>, m: nat)
    requires m < |v|
    ensures v == v[..m] + ([v[m]] + v[m + 1..])
  {
  }

  lemma LookHead(p: Piece, w: seq<Piece>, b: int)
    ensures Look([p] + w, b) == if Covers(p, b) then Some(LocIn(p, b)) else Look(w, b)
  {
    assert ([p] + w)[1..] == w;
  }

  lemma HeadStraddlingAt(v: seq<Piece>, A: seq<Piece>, k: nat, start: int, end: int, b: int)
    requires Ordered(v) && FirstAfter(v, start, k) && Within(A, start, end) && k < |v| && v[k].offF < start
    ensures Look(v[..k] + [Cut(v[k], start)] + A, b) == if b < start then Look(v, b) else Look(A, b)
  {
    hide Look;
    var c := Cut(v[k], start);
    var u := v[..k] + [c];
    LookConcat(u, A, b);
    if b < start {
      LookOutside(A, start, end, b);
      SplitAround(v, k);
      LookConcat(v[..k], [c], b);
      LookConcat(v[..k], [v[k]] + v[k + 1..], b);
      LookHead(c, [], b);
      LookHead(v[k], v[k + 1..], b);
      LookNone([], b);
      assert [c] == [c] + [];
      AllBeyond(v, k + 1, End(v[k]));
      LookNone(v[k + 1..], b);
    } else {
      LookNone(u, b);
    }
  }

  lemma HeadStraddling(v: seq<Piece>, A: seq<Piece>, k: nat, start: int, end: int, z: Option<Piece>)
    requires Ordered(v) && FirstAfter(v, start, k) && start <= end && Listed(A, start, end, z)
    requires k < |v| && v[k].offF < start
    ensures IsHead(v[..k] + [Cut(v[k], start)] + A, v, A, start, end, z)
  {
    var c := Cut(v[k], start);
    var u := v[..k] + [c];
    OrderedParts(v, k);
    OrderedConcat(v[..k], [c], v[k].offF);
    SortedConcat(u, A, start);
    FilledAfter(u, A, z);
    forall b: int ensures Look(u + A, b) == if b < start then Look(v, b) else Look(A, b) {
      HeadStraddlingAt(v, A, k, start, end, b);
    }
  }

  /** Nothing is left, or the m-th piece starts at or after `end`. */
  lemma TailAtBoundary(v: seq<Piece>, m: nat, end: int)
    requires Ordered(v) && FirstAfter(v, end, m) && (m < |v| ==> end <= v[m].offF)
    ensures IsTail(v[m..], v, end)
  {
    OrderedParts(v, m);
    forall b: int ensures Look(v[m..], b) == if b < end then None else Look(v, b) {
      LookConcat(v[..m], v[m..], b);
      if b < end { LookNone(v[m..], b); } else { LookNone(v[..m], b); }
    }
  }

  lemma TailStraddlingAt(v: seq<Piece>, m: nat, end: int, b: int)
    requires FirstAfter(v, end, m) && m < |v| && v[m].offF <= end && Ordered(v)
    ensures Look([CutFront(v[m], end)] + v[m + 1..], b) == if b < end then None else Look(v, b)
  {
    hide Look, Ordered;
    var c, w := CutFront(v[m], end), v[m + 1..];
    LookHead(c, w, b);
    if b < end {
      AllBeyond(v, m + 1, end);
      LookNone(w, b);
    } else {
      SplitAround(v, m);
      LookConcat(v[..m], [v[m]] + w, b);
      LookNone(v[..m], b);
      LookHead(v[m], w, b);
    }
  }

  /** The m-th piece straddles `end` and is cut there. */
  lemma TailStraddling(v: seq<Piece>, m: nat, end: int)
    requires Ordered(v) && FirstAfter(v, end, m) && m < |v| && v[m].offF <= end
    ensures IsTail([CutFront(v[m], end)] + v[m + 1..], v, end)
  {
    var c, w := CutFront(v[m], end), v[m + 1..];
    OrderedParts(v, m + 1);
    OrderedConcat([c], w, End(v[m]));
    assert forall i | 0 <= i < |w| :: w[i] == v[m + 1 + i];
    forall b: int ensures Look([c] + w, b) == if b < end then None else Look(v, b) {
      TailStraddlingAt(v, m, end, b);
    }
  }

  lemma RestFilled(w: seq<Piece>, z: Option<Piece>)
    requires Filled(w, z) && w != [] && w[0].length > 0
    ensures Filled(w[1..], z) && (z.Some? ==> |w| > 1)
  {
  }

  /** A list without its first piece, which is not empty. */
  lemma RestListed(w: seq<Piece>, start: int, end: int, z: Option<Piece>)
    requires Listed(w, start, end, z) && w != [] && w[0].length > 0
    ensures Ordered([w[0]]) && Listed(w[1..], End(w[0]), end, z) && (z.Some? ==> |w| > 1)
    ensures End(w[0]) <= end && EndBy([w[0]], 1, End(w[0]))
  {
    hide Filled;
    RestFilled(w, z);
  }

  /** The tail begins with a piece at `end` exactly if that piece holds the old byte `end`. */
  lemma TailBegins(S: seq<Piece>, v: seq<Piece>, end: int, l: Loc)
    requires IsTail(S, v, end)
    ensures Look(v, end) == Some(l) <==> S != [] && S[0].offF == end && Loc(S[0].addr, S[0].offDo) == l
  {
    hide Look;
    assert Look(S, end) == Look(v, end);
    if S != [] && S[0].offF == end {
      LookAt(S, 0, end);
    } else {
      forall i | 0 <= i < |S| ensures !Covers(S[i], end) {
        if i > 0 { assert End(S[0]) <= S[i].offF && S[0].length > 0; }
      }
      LookNone(S, end);
    }
  }

  /** Writing a list into nothing is writing its first piece and then the rest. */
  lemma OverwriteFirst(f: seq<Piece>, w: seq<Piece>, start: int, end: int)
    requires Sorted(w) && w != [] && Within(w, start, end) && Overwrites(f, [w[0]], w[1..], End(w[0]), end)
    ensures Overwrites(f, [], w, start, end)
  {
    forall b: int ensures Look(f, b) == if start <= b < end then Look(w, b) else Look([], b) {
      assert [w[0]] + w[1..] == w && [w[0]][1..] == [];
      LookConcat([w[0]], w[1..], b);
      if b < End(w[0]) { LookNone(w[1..], b); }
    }
  }
}
