/** The hash index of uthash.h under do_map, inode_map and the mapping server's map:
    bucket chains that double, and a list in order of insertion, against a finite map. */
module HashIndex {
  import opened Sequences
  import opened HashMath

  /** The bytes of a key. */
  type Key = seq<nat>

  /** An element with its hash handle. */
  class Item {
    const key: Key
    const value: nat
    var hashv: nat
    var prev: Item?    // in order of insertion
    var next: Item?
    var hhPrev: Item?  // in the bucket
    var hhNext: Item?

    constructor (key: Key, value: nat)
      ensures this.key == key && this.value == value
    {
      this.key, this.value := key, value;
      hashv, prev, next, hhPrev, hhNext := 0, null, null, null, null;
    }
  }

  class Bucket {
    var head: Item?
    var count: nat
    var expandMult: nat
    ghost var chain: seq<Item>

    constructor ()
      ensures head == null && count == 0 && expandMult == 0 && chain == []
    {
      head, count, expandMult, chain := null, 0, 0, [];
    }
  }

  ghost function OrNull(s: seq<Item>, i: int): Item? {
    if 0 <= i < |s| then s[i] else null
  }

  // ---- one bucket

  ghost predicate ChainOk(b: Bucket)
    reads b`head, b`count, b`chain, b.chain`hhPrev, b.chain`hhNext
  {
    && NoDup(b.chain) && b.head == OrNull(b.chain, 0) && b.count == |b.chain|
    && forall i {:trigger b.chain[i]} | 0 <= i < |b.chain| ::
        b.chain[i].hhPrev == OrNull(b.chain, i - 1) && b.chain[i].hhNext == OrNull(b.chain, i + 1)
  }

  /** HASH_ADD_TO_BKT without the expansion: x goes to the head of the chain. */
  method PushChain(b: Bucket, x: Item)
    requires ChainOk(b) && x !in b.chain
    modifies b`head, b`count, b`chain, x`hhPrev, x`hhNext, b.chain`hhPrev
    ensures ChainOk(b) && b.chain == [x] + old(b.chain)
  {
    b.count := b.count + 1;
    x.hhNext := b.head;
    x.hhPrev := null;
    if b.head != null {
      assert b.chain[0] == b.head;
      b.head.hhPrev := x;
    }
    b.head := x;
    b.chain := [x] + b.chain;
  }

  /** The links around the k-th item of a chain. */
  lemma ChainAt(b: Bucket, k: nat)
    requires ChainOk(b) && k < |b.chain|
    ensures var x := b.chain[k];
      && x.hhPrev == OrNull(b.chain, k - 1) && x.hhNext == OrNull(b.chain, k + 1) && b.count == |b.chain|
      && (b.head == x <==> k == 0) && x.hhPrev != x && x.hhNext != x && (x.hhNext != null ==> x.hhNext != x.hhPrev)
  {
  }

  /** HASH_DEL_IN_BKT: x, the k-th of the chain, is unlinked. */
  method UnlinkChain(b: Bucket, x: Item, ghost k: nat)
    requires ChainOk(b) && k < |b.chain| && b.chain[k] == x
    modifies b`head, b`count, b.chain`hhPrev, b.chain`hhNext
    ensures b.count == |b.chain| - 1 && b.head == OrNull(b.chain, if k == 0 then 1 else 0)
    ensures forall y <- b.chain :: y.hhPrev == if y == OrNull(b.chain, k + 1) then OrNull(b.chain, k - 1)
      else old(y.hhPrev)
    ensures forall y <- b.chain :: y.hhNext == if y == OrNull(b.chain, k - 1) then OrNull(b.chain, k + 1)
      else old(y.hhNext)
  {
    hide NoDup;
    ChainAt(b, k);
    b.count := b.count - 1;
    if b.head == x {
      b.head := x.hhNext;
    }
    if x.hhPrev != null {
      x.hhPrev.hhNext := x.hhNext;
    }
    if x.hhNext != null {
      x.hhNext.hhPrev := x.hhPrev;
    }
  }

  /** What stands before the j-th element once the k-th is gone. */
  lemma ItemBefore(s: seq<Item>, k: nat, j: nat)
    requires k < |s| && j < |s| - 1 && NoDup(s)
    ensures var w, i := Without(s, k), if j < k then j else j + 1;
      && |w| == |s| - 1
      && OrNull(w, j - 1) == if s[i] == OrNull(s, k + 1) then OrNull(s, k - 1) else OrNull(s, i - 1)
  {
    hide NoDup, Without;
    WithoutAt(s, k);
    DupFree(s);
  }

  lemma ItemAfter(s: seq<Item>, k: nat, j: nat)
    requires k < |s| && j < |s| - 1 && NoDup(s)
    ensures var w, i := Without(s, k), if j < k then j else j + 1;
      && |w| == |s| - 1 && w[j] == s[i]
      && OrNull(w, j + 1) == if s[i] == OrNull(s, k - 1) then OrNull(s, k + 1) else OrNull(s, i + 1)
  {
    hide NoDup, Without;
    WithoutAt(s, k);
    DupFree(s);
  }

  /** The neighbours of the j-th element once the k-th is gone. */
  lemma ItemNeighbours(s: seq<Item>, k: nat, j: nat)
    requires k < |s| && j < |s| - 1 && NoDup(s)
    ensures var w, i := Without(s, k), if j < k then j else j + 1;
      && |w| == |s| - 1 && w[j] == s[i] && w[j] in s
      && OrNull(w, j - 1) == (if w[j] == OrNull(s, k + 1) then OrNull(s, k - 1) else OrNull(s, i - 1))
      && OrNull(w, j + 1) == (if w[j] == OrNull(s, k - 1) then OrNull(s, k + 1) else OrNull(s, i + 1))
  {
    hide NoDup, Without, OrNull;
    ItemBefore(s, k, j);
    ItemAfter(s, k, j);
  }

  /** The links of a chain without its k-th item. */
  twostate lemma Rechained(s: seq<Item>, new k: nat)
    requires k < |s| && NoDup(s)
    requires forall i {:trigger s[i]} | 0 <= i < |s| ::
      old(s[i].hhPrev) == OrNull(s, i - 1) && old(s[i].hhNext) == OrNull(s, i + 1)
    requires forall y <- s :: y.hhPrev == if y == OrNull(s, k + 1) then OrNull(s, k - 1) else old(y.hhPrev)
    requires forall y <- s :: y.hhNext == if y == OrNull(s, k - 1) then OrNull(s, k + 1) else old(y.hhNext)
    ensures NoDup(Without(s, k))
    ensures var w := Without(s, k);
      forall j {:trigger w[j]} | 0 <= j < |w| :: w[j].hhPrev == OrNull(w, j - 1) && w[j].hhNext == OrNull(w, j + 1)
  {
    hide NoDup, Without;
    WithoutMembers(s, k);
    var w := Without(s, k);
    forall j | 0 <= j < |w| ensures w[j].hhPrev == OrNull(w, j - 1) && w[j].hhNext == OrNull(w, j + 1) {
      ItemNeighbours(s, k, j);
      var i := if j < k then j else j + 1;
      assert w[j] == s[i] && s[i] in s;
    }
  }

  lemma FirstWithout(s: seq<Item>, k: nat)
    requires k < |s|
    ensures OrNull(Without(s, k), 0) == OrNull(s, if k == 0 then 1 else 0) && |Without(s, k)| == |s| - 1
  {
  }

  method DropChain(b: Bucket, x: Item, ghost k: nat)
    requires ChainOk(b) && k < |b.chain| && b.chain[k] == x
    modifies b`head, b`count, b`chain, b.chain`hhPrev, b.chain`hhNext
    ensures ChainOk(b) && b.chain == Without(old(b.chain), k)
  {
    hide NoDup, Without, OrNull;
    ghost var c := b.chain;
    FirstWithout(c, k);
    label before:
    UnlinkChain(b, x, k);
    b.chain := Without(c, k);
    Rechained@before(c, k);
  }

  // ---- all buckets

  /** Every item is in the chain of its bucket, and the chains hold nothing else. */
  ghost predicate Homes(bs: seq<Bucket>, items: set<Item>)
    reads bs`chain, items`hashv
  {
    && |bs| > 0 && NoDup(bs)
    && (forall b {:trigger bs[b]} | 0 <= b < |bs| ::
        (forall x <- bs[b].chain :: x in items && Home(x.hashv, |bs|) == b))
    && (forall x <- items :: x in bs[Home(x.hashv, |bs|)].chain)
  }

  ghost predicate BucketsOk(bs: seq<Bucket>, items: set<Item>)
    reads bs`head, bs`count, bs`chain, items`hashv, items`hhPrev, items`hhNext
  {
    Homes(bs, items) && forall b {:trigger bs[b]} | 0 <= b < |bs| :: ChainOk(bs[b])
  }

  /** Different buckets are different objects with nothing in common. */
  lemma BucketsApart(bs: seq<Bucket>, items: set<Item>, i: nat, b: nat)
    requires Homes(bs, items) && i < |bs| && b < |bs| && i != b
    ensures bs[i] != bs[b] && forall y <- bs[b].chain :: y in items && y !in bs[i].chain
  {
  }

  twostate lemma ChainKept(b: Bucket)
    requires old(ChainOk(b)) && b.chain == old(b.chain) && b.head == old(b.head) && b.count == old(b.count)
    requires forall y <- b.chain :: y.hhPrev == old(y.hhPrev) && y.hhNext == old(y.hhNext)
    ensures ChainOk(b)
  {
  }

  /** Homes after the chain of bucket i changed. */
  lemma HomesWith(bs: seq<Bucket>, i: nat, items: set<Item>, x: Item, chains: seq<seq<Item>>)
    requires |bs| > 0 && NoDup(bs) && |chains| == |bs| && i < |bs|
    requires forall b {:trigger chains[b]} | 0 <= b < |bs| ::
      forall y <- chains[b] :: y in items && Home(y.hashv, |bs|) == b
    requires forall y <- items :: y in chains[Home(y.hashv, |bs|)]
    requires forall b {:trigger bs[b]} | 0 <= b < |bs| && b != i :: bs[b].chain == chains[b]
    requires Home(x.hashv, |bs|) == i
    ensures bs[i].chain == [x] + chains[i] ==> Homes(bs, items + {x})
    ensures (forall y :: y in bs[i].chain <==> y in chains[i] && y != x) ==> Homes(bs, items - {x})
  {
  }

  method PutInBucket(bs: seq<Bucket>, i: nat, x: Item, ghost items: set<Item>)
    requires BucketsOk(bs, items) && x !in items && i < |bs| && i == Home(x.hashv, |bs|)
    modifies {bs[i]}`head, {bs[i]}`count, {bs[i]}`chain, x`hhPrev, x`hhNext, items`hhPrev
    ensures BucketsOk(bs, items + {x}) && bs[i].chain == [x] + old(bs[i].chain)
    ensures forall b | 0 <= b < |bs| && b != i :: bs[b] != bs[i]
  {
    hide NoDup, ChainOk, Home;
    forall b | 0 <= b < |bs| && b != i
      ensures bs[i] != bs[b] && forall y <- bs[b].chain :: y in items && y !in bs[i].chain
    {
      BucketsApart(bs, items, i, b);
    }
    ghost var chains := seq(|bs|, b requires 0 <= b < |bs| reads bs => bs[b].chain);
    PushChain(bs[i], x);
    forall b | 0 <= b < |bs| && b != i ensures ChainOk(bs[b]) {
      ChainKept(bs[b]);
    }
    HomesWith(bs, i, items, x, chains);
  }

  lemma ChainDistinct(b: Bucket)
    requires ChainOk(b)
    ensures NoDup(b.chain)
  {
  }

  method TakeFromBucket(bs: seq<Bucket>, i: nat, x: Item, ghost items: set<Item>)
    requires BucketsOk(bs, items) && x in items && i == Home(x.hashv, |bs|)
    modifies {bs[i]}`head, {bs[i]}`count, {bs[i]}`chain, items`hhPrev, items`hhNext
    ensures BucketsOk(bs, items - {x})
  {
    hide NoDup, ChainOk, Without, Home;
    ghost var c := bs[i].chain;
    ghost var k :| 0 <= k < |c| && c[k] == x;
    forall b | 0 <= b < |bs| && b != i
      ensures bs[i] != bs[b] && forall y <- bs[b].chain :: y in items && y !in bs[i].chain
    {
      BucketsApart(bs, items, i, b);
    }
    ghost var chains := seq(|bs|, b requires 0 <= b < |bs| reads bs => bs[b].chain);
    ChainDistinct(bs[i]);
    DropChain(bs[i], x, k);
    WithoutMembers(c, k);
    assert chains[i] == c;
    assert forall y :: y in bs[i].chain <==> y in chains[i] && y != x;
    forall b | 0 <= b < |bs| ensures ChainOk(bs[b]) {
      if b != i { ChainKept(bs[b]); }
    }
    HomesWith(bs, i, items, x, chains);
    assert Homes(bs, items - {x});
  }

  // ---- doubling

  ghost function Counts(bs: seq<Bucket>): (c: seq<nat>)
    reads bs`count
    ensures |c| == |bs| && forall b | 0 <= b < |bs| :: c[b] == bs[b].count
  {
    if bs == [] then [] else Counts(bs[..|bs| - 1]) + [bs[|bs| - 1].count]
  }

  /** expand_mult of each bucket is how often the ideal goes into a chain that exceeds it. */
  ghost predicate Mults(bs: seq<Bucket>, ideal: nat)
    requires ideal > 0
    reads bs`count, bs`expandMult
  {
    forall b {:trigger bs[b]} | 0 <= b < |bs| ::
      bs[b].expandMult == if bs[b].count > ideal then bs[b].count / ideal else 0
  }

  /** n zeroed buckets. */
  method NewBuckets(n: nat) returns (bs: seq<Bucket>)
    requires n > 0
    ensures |bs| == n && fresh(bs) && BucketsOk(bs, {}) && forall i | 0 <= i < n :: Counts(bs)[i] == 0
    ensures forall b {:trigger bs[b]} | 0 <= b < n :: bs[b].count == 0 && bs[b].expandMult == 0
  {
    bs := [];
    while |bs| < n
      invariant |bs| <= n && fresh(bs) && NoDup(bs)
      invariant forall b {:trigger bs[b]} | 0 <= b < |bs| ::
        bs[b].head == null && bs[b].count == 0 && bs[b].expandMult == 0 && bs[b].chain == []
    {
      var b := new Bucket();
      assert b !in bs;
      bs := bs + [b];
    }
  }

  /** The items of the old buckets that have been moved: all of the first i chains and
      the first j of the next. */
  ghost predicate Moved(bs: seq<Bucket>, items: set<Item>, done: set<Item>, i: nat, j: nat)
    reads bs`chain, items`hashv
  {
    && Homes(bs, items) && done <= items && i <= |bs|
    && (i < |bs| ==> j <= |bs[i].chain|)
    && forall x <- items :: x in done <==> Home(x.hashv, |bs|) < i || (i < |bs| && x in bs[i].chain[..j])
  }

  lemma MoveOne(bs: seq<Bucket>, items: set<Item>, done: set<Item>, i: nat, j: nat)
    requires Moved(bs, items, done, i, j) && i < |bs| && j < |bs[i].chain| && NoDup(bs[i].chain)
    ensures var x := bs[i].chain[j]; x in items && x !in done && Moved(bs, items, done + {x}, i, j + 1)
  {
    var c, x := bs[i].chain, bs[i].chain[j];
    assert c[..j + 1] == c[..j] + [x];
    assert x in c && Home(x.hashv, |bs|) == i;
    forall y | y in c[..j] ensures y != x {
      var m :| 0 <= m < j && c[..j][m] == y;
    }
  }

  lemma ChainMoved(bs: seq<Bucket>, items: set<Item>, done: set<Item>, i: nat, j: nat)
    requires Moved(bs, items, done, i, j) && i < |bs| && j == |bs[i].chain|
    ensures Moved(bs, items, done, i + 1, 0)
  {
    assert bs[i].chain[..j] == bs[i].chain;
  }

  lemma MovedAll(bs: seq<Bucket>, items: set<Item>, done: set<Item>)
    requires Moved(bs, items, done, |bs|, 0)
    ensures done == items
  {
    forall x | x in items ensures x in done { assert Home(x.hashv, |bs|) < |bs|; }
  }

  /** Old chains can still be followed through hhNext from the j-th item on. */
  ghost predicate NextOk(c: seq<Item>, j: nat)
    reads c`hhNext
  {
    forall m {:trigger c[m]} | j <= m < |c| :: c[m].hhNext == OrNull(c, m + 1)
  }

  lemma BucketCounts(bs: seq<Bucket>, items: set<Item>, i: nat)
    requires BucketsOk(bs, items) && i < |bs|
    ensures bs[i].count == |bs[i].chain| && NoDup(bs)
  {
  }

  /** One item moves to its new bucket. */
  method MoveItem(nbs: seq<Bucket>, x: Item, ideal: nat, nonideal0: nat, ghost lg: nat, ghost done: set<Item>)
    returns (nonideal: nat)
    requires BucketsOk(nbs, done) && x !in done && ideal > 0 && nonideal0 == SumExcess(Counts(nbs), ideal)
    requires |nbs| == Pow2(lg) && Mults(nbs, ideal)
    modifies nbs, x`hhPrev, x`hhNext, done`hhPrev
    ensures Mults(nbs, ideal) && BucketsOk(nbs, done + {x}) && nonideal == SumExcess(Counts(nbs), ideal)
  {
    hide ChainOk, NoDup, BucketsOk, SumExcess, Pow2, And, Home;
    MaskIsMod(x.hashv, lg);
    var bkt := And(x.hashv, |nbs| - 1);
    nonideal := nonideal0;
    ghost var counts := Counts(nbs);
    ExcessBump(counts, ideal, bkt);
    BucketCounts(nbs, done, bkt);
    PutInBucket(nbs, bkt, x, done);
    BucketCounts(nbs, done + {x}, bkt);
    if nbs[bkt].count > ideal {
      nonideal := nonideal + 1;
      nbs[bkt].expandMult := nbs[bkt].count / ideal;
    }
    assert Counts(nbs) == counts[bkt := counts[bkt] + 1];
  }

  ghost predicate Separate(bs: seq<Bucket>, nbs: seq<Bucket>) {
    forall a, b | 0 <= a < |nbs| && 0 <= b < |bs| :: nbs[a] != bs[b]
  }

  lemma ChainInside(bs: seq<Bucket>, items: set<Item>, done: set<Item>, i: nat, j: nat)
    requires Moved(bs, items, done, i, j) && i < |bs|
    ensures done <= items && forall y <- bs[i].chain :: y in items
  {
  }

  lemma NextAt(c: seq<Item>, j: nat)
    requires NextOk(c, j) && j < |c|
    ensures c[j].hhNext == OrNull(c, j + 1)
  {
  }

  /** The rest of the chain can be followed although its first item went elsewhere. */
  twostate lemma NextLater(c: seq<Item>, new j: nat)
    requires NoDup(c) && j < |c| && old(NextOk(c, j))
    requires forall y <- c :: y != c[j] ==> y.hhNext == old(y.hhNext)
    ensures NextOk(c, j + 1)
  {
    forall m | j < m < |c| ensures c[m].hhNext == OrNull(c, m + 1) {
      assert c[m] in c && c[m] != c[j];
    }
  }

  lemma NoneShared(bs: seq<Bucket>, nbs: seq<Bucket>)
    requires Separate(bs, nbs)
    ensures forall b <- bs :: b !in nbs
  {
  }

  /** The i-th chain moves to the new buckets. */
  method MoveChain(bs: seq<Bucket>, i: nat, nbs: seq<Bucket>, ideal: nat, nonideal0: nat, ghost lg: nat,
      ghost items: set<Item>, ghost done0: set<Item>)
    returns (nonideal: nat, ghost done: set<Item>)
    requires Moved(bs, items, done0, i, 0) && i < |bs| && NextOk(bs[i].chain, 0) && NoDup(bs[i].chain)
    requires bs[i].head == OrNull(bs[i].chain, 0) && |nbs| == Pow2(lg)
    requires Separate(bs, nbs) && ideal > 0 && Mults(nbs, ideal)
    requires BucketsOk(nbs, done0) && ideal > 0 && nonideal0 == SumExcess(Counts(nbs), ideal)
    modifies nbs, items`hhPrev, items`hhNext
    ensures Moved(bs, items, done, i + 1, 0) && BucketsOk(nbs, done) && nonideal == SumExcess(Counts(nbs), ideal)
    ensures Mults(nbs, ideal)
    ensures forall y <- items :: y !in bs[i].chain ==> y.hhNext == old(y.hhNext)
  {
    hide Moved, BucketsOk, SumExcess, NoDup, Pow2, Home, Counts, NextOk, Separate, Mults;
    ghost var c, j := bs[i].chain, 0;
    nonideal, done := nonideal0, done0;
    ChainInside(bs, items, done, i, j);
    var thh := bs[i].head;
    while thh != null
      invariant bs[i].chain == c && j <= |c| && thh == OrNull(c, j) && NextOk(c, j)
      invariant Moved(bs, items, done, i, j) && BucketsOk(nbs, done) && nonideal == SumExcess(Counts(nbs), ideal)
      invariant Mults(nbs, ideal)
      invariant forall y <- items :: y !in c ==> y.hhNext == old(y.hhNext)
      decreases |c| - j
    {
      var next := thh.hhNext;
      MoveOne(bs, items, done, i, j);
      NextAt(c, j);
      ChainInside(bs, items, done, i, j);
      assert bs[i].chain[j] == thh;
      NoneShared(bs, nbs);
      assert bs[i] in bs;
      label before:
      nonideal := MoveItem(nbs, thh, ideal, nonideal, lg, done);
      assert forall b <- bs :: b.chain == old@before(b.chain);
      NextLater@before(c, j);
      done, j, thh := done + {thh}, j + 1, next;
    }
    ChainMoved(bs, items, done, i, j);
  }

  /** The chains from the i-th on can still be followed. */
  ghost predicate Waiting(bs: seq<Bucket>, items: set<Item>, i: nat)
    reads bs`head, bs`chain, items`hhNext
  {
    && forall b {:trigger bs[b]} | i <= b < |bs| ::
        && (forall y <- bs[b].chain :: y in items)
        && NextOk(bs[b].chain, 0) && NoDup(bs[b].chain) && bs[b].head == OrNull(bs[b].chain, 0)
  }

  lemma StartMoving(bs: seq<Bucket>, items: set<Item>)
    requires BucketsOk(bs, items)
    ensures Moved(bs, items, {}, 0, 0) && |bs| > 0 && Waiting(bs, items, 0)
  {
    forall b | 0 <= b < |bs|
      ensures NextOk(bs[b].chain, 0) && NoDup(bs[b].chain) && bs[b].head == OrNull(bs[b].chain, 0)
    {
      assert ChainOk(bs[b]);
    }
    forall x | x in items ensures !(Home(x.hashv, |bs|) < 0) && !(0 < |bs| && x in bs[0].chain[..0]) { }
  }

  /** The later chains share nothing with the i-th. */
  lemma LaterChain(bs: seq<Bucket>, items: set<Item>, done: set<Item>, i: nat, b: nat)
    requires Moved(bs, items, done, i, 0) && i < b < |bs|
    ensures forall y <- bs[b].chain :: y in items && y !in bs[i].chain
  {
    hide NoDup, Home;
  }

  lemma NextWaiting(bs: seq<Bucket>, items: set<Item>, i: nat)
    requires Waiting(bs, items, i) && i < |bs|
    ensures NextOk(bs[i].chain, 0) && NoDup(bs[i].chain) && bs[i].head == OrNull(bs[i].chain, 0)
  {
    hide NextOk, NoDup, OrNull;
  }

  twostate lemma NextKept(c: seq<Item>)
    requires old(NextOk(c, 0)) && forall y <- c :: y.hhNext == old(y.hhNext)
    ensures NextOk(c, 0)
  {
  }

  /** Moving the i-th chain leaves the later ones as they were. */
  method MoveNext(bs: seq<Bucket>, i: nat, nbs: seq<Bucket>, ideal: nat, nonideal0: nat, ghost lg: nat,
      ghost items: set<Item>, ghost done0: set<Item>)
    returns (nonideal: nat, ghost done: set<Item>)
    requires Moved(bs, items, done0, i, 0) && i < |bs| && Waiting(bs, items, i)
    requires |nbs| == Pow2(lg) && Separate(bs, nbs) && ideal > 0 && Mults(nbs, ideal)
    requires BucketsOk(nbs, done0) && ideal > 0 && nonideal0 == SumExcess(Counts(nbs), ideal)
    modifies nbs, items`hhPrev, items`hhNext
    ensures Moved(bs, items, done, i + 1, 0) && Waiting(bs, items, i + 1)
    ensures Mults(nbs, ideal) && BucketsOk(nbs, done) && nonideal == SumExcess(Counts(nbs), ideal)
  {
    hide BucketsOk, Moved, SumExcess, NoDup, Pow2, NextOk, Home, Counts, Mults;
    NextWaiting(bs, items, i);
    forall b | i < b < |bs| ensures forall y <- bs[b].chain :: y in items && y !in bs[i].chain {
      LaterChain(bs, items, done0, i, b);
    }
    label before:
    nonideal, done := MoveChain(bs, i, nbs, ideal, nonideal0, lg, items, done0);
    forall b | i < b < |bs| ensures NextOk(bs[b].chain, 0) { NextKept@before(bs[b].chain); }
  }

  lemma NoMults(bs: seq<Bucket>, ideal: nat)
    requires ideal > 0 && forall b {:trigger bs[b]} | 0 <= b < |bs| :: bs[b].count == 0 && bs[b].expandMult == 0
    ensures Mults(bs, ideal)
  {
  }

  lemma FreshApart(bs: seq<Bucket>, nbs: seq<Bucket>)
    requires forall b <- nbs :: b !in bs
    ensures Separate(bs, nbs)
  {
    forall a, b | 0 <= a < |nbs| && 0 <= b < |bs| ensures nbs[a] != bs[b] {
      assert nbs[a] in nbs && bs[b] in bs;
    }
  }

  /** The body of HASH_EXPAND_BUCKETS: every item moves to a bucket of the doubled table,
      and `nonideal` counts those beyond the ideal chain length. */
  method Redistribute(bs: seq<Bucket>, ideal: nat, ghost lg: nat, ghost items: set<Item>)
    returns (nbs: seq<Bucket>, nonideal: nat)
    requires BucketsOk(bs, items) && ideal > 0 && 2 * |bs| == Pow2(lg)
    modifies items`hhPrev, items`hhNext
    ensures Mults(nbs, ideal)
    ensures fresh(nbs) && |nbs| == Pow2(lg) && BucketsOk(nbs, items) && nonideal == SumExcess(Counts(nbs), ideal)
  {
    hide BucketsOk, Moved, SumExcess, Pow2, Counts, Waiting, Separate, Mults;
    StartMoving(bs, items);
    nbs := NewBuckets(2 * |bs|);
    FreshApart(bs, nbs);
    NoMults(nbs, ideal);
    nonideal := 0;
    NoExcess(Counts(nbs), ideal);
    ghost var done := {};
    for i := 0 to |bs|
      invariant fresh(nbs) && |nbs| == Pow2(lg) && BucketsOk(nbs, done) && nonideal == SumExcess(Counts(nbs), ideal)
      invariant Mults(nbs, ideal) && Moved(bs, items, done, i, 0) && Waiting(bs, items, i) && Separate(bs, nbs)
    {
      nonideal, done := MoveNext(bs, i, nbs, ideal, nonideal, lg, items, done);
    }
    MovedAll(bs, items, done);
  }
}
