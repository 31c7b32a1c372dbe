/** The table of uthash.h: HASH_ADD_KEYPTR, HASH_FIND, HASH_DELETE and HASH_ITER on
    the bucket chains and the list in order of insertion. */
module HashTables {
  import opened Sequences
  import opened HashMath
  import opened HashIndex

  /** The finite map of a list of items. */
  ghost function MapOf(s: seq<Item>): map<Key, Item> {
    if s == [] then map[] else MapOf(s[..|s| - 1])[s[|s| - 1].key := s[|s| - 1]]
  }

  ghost predicate UniqueKeys(s: seq<Item>) {
    forall i, j | 0 <= i < j < |s| :: s[i].key != s[j].key
  }

  lemma {:induction false} MapAt(s: seq<Item>)
    requires UniqueKeys(s)
    ensures forall i | 0 <= i < |s| :: s[i].key in MapOf(s) && MapOf(s)[s[i].key] == s[i]
    ensures forall k | k in MapOf(s) :: exists i :: 0 <= i < |s| && s[i].key == k
  {
    if s != [] {
      var n := |s| - 1;
      MapAt(s[..n]);
      forall i | 0 <= i < |s| ensures s[i].key in MapOf(s) && MapOf(s)[s[i].key] == s[i] {
        if i < n { assert s[..n][i] == s[i]; }
      }
      forall k | k in MapOf(s) ensures exists i :: 0 <= i < |s| && s[i].key == k {
        if k != s[n].key {
          var i :| 0 <= i < n && s[..n][i].key == k;
          assert s[i].key == k;
        }
      }
    }
  }

  lemma MapMore(s: seq<Item>, x: Item)
    ensures MapOf(s + [x]) == MapOf(s)[x.key := x]
  {
    assert (s + [x])[..|s|] == s;
  }

  /** What MapAt says of one key. */
  lemma MapIs(s: seq<Item>, q: Key)
    requires UniqueKeys(s)
    ensures q in MapOf(s) <==> exists i :: 0 <= i < |s| && s[i].key == q
    ensures q in MapOf(s) ==> MapOf(s)[q] in s && MapOf(s)[q].key == q
  {
    hide MapOf, UniqueKeys;
    MapAt(s);
    if i :| 0 <= i < |s| && s[i].key == q { assert s[i].key in MapOf(s); }
  }

  lemma KeysLess(s: seq<Item>, k: nat)
    requires UniqueKeys(s) && k < |s|
    ensures UniqueKeys(Without(s, k))
    ensures forall x :: x in Without(s, k) <==> x in s && x.key != s[k].key
  {
    var w := Without(s, k);
    assert forall i | 0 <= i < |w| :: w[i] == s[if i < k then i else i + 1];
    forall x | x in s && x.key != s[k].key ensures x in w {
      var i :| 0 <= i < |s| && s[i] == x;
      assert w[if i < k then i else i - 1] == x;
    }
  }

  lemma InMap(s: seq<Item>, x: Item)
    requires UniqueKeys(s) && x in s
    ensures x.key in MapOf(s)
  {
    hide MapOf, UniqueKeys;
    MapAt(s);
    var i :| 0 <= i < |s| && s[i] == x;
    assert s[i].key in MapOf(s);
  }

  lemma SameKey(s: seq<Item>, x: Item, y: Item)
    requires UniqueKeys(s) && x in s && y in s && x.key == y.key
    ensures x == y
  {
  }

  lemma MapLessAt(s: seq<Item>, k: nat, q: Key)
    requires UniqueKeys(s) && k < |s| && UniqueKeys(Without(s, k))
    ensures q in MapOf(Without(s, k)) <==> q in MapOf(s) && q != s[k].key
    ensures q in MapOf(Without(s, k)) ==> MapOf(Without(s, k))[q] == MapOf(s)[q]
  {
    hide MapOf, UniqueKeys, Without;
    var w := Without(s, k);
    KeysLess(s, k);
    MapIs(s, q);
    MapIs(w, q);
    if q in MapOf(s) && q != s[k].key { InMap(w, MapOf(s)[q]); }
    if q in MapOf(w) {
      InMap(s, MapOf(w)[q]);
      SameKey(s, MapOf(w)[q], MapOf(s)[q]);
    }
  }

  lemma MapLess(s: seq<Item>, k: nat)
    requires UniqueKeys(s) && k < |s|
    ensures UniqueKeys(Without(s, k)) && MapOf(Without(s, k)) == MapOf(s) - {s[k].key}
  {
    hide MapOf, Without, UniqueKeys;
    KeysLess(s, k);
    forall q ensures q in MapOf(Without(s, k)) <==> q in MapOf(s) && q != s[k].key
      ensures q in MapOf(Without(s, k)) ==> MapOf(Without(s, k))[q] == MapOf(s)[q]
    {
      MapLessAt(s, k, q);
    }
  }

  /** Each item points to its neighbours. */
  ghost predicate Chained(s: seq<Item>)
    reads s`prev, s`next
  {
    forall i {:trigger s[i]} | 0 <= i < |s| :: s[i].prev == OrNull(s, i - 1) && s[i].next == OrNull(s, i + 1)
  }

  /** The list in order of insertion. */
  ghost predicate ListOk(head: Item?, tail: Item?, s: seq<Item>)
    reads s`prev, s`next
  {
    NoDup(s) && head == OrNull(s, 0) && tail == OrNull(s, |s| - 1) && Chained(s)
  }

  const INITIAL_LOG2: nat := 5
  const THRESHOLD: nat := 10

  /** The chain length at which a bucket asks for doubling. */
  function Limit(expandMult: nat): nat { (expandMult + 1) * THRESHOLD }

  /** One more item makes the chain too long: ten items, and ten more for each time the ideal goes into it. */
  ghost predicate Full(b: Bucket, noexpand: bool)
    reads b`count, b`expandMult
  {
    !noexpand && b.count + 1 >= 10 + 10 * b.expandMult
  }

  lemma FullIs(b: Bucket, noexpand: bool)
    ensures Full(b, noexpand) <==> b.count + 1 >= Limit(b.expandMult) && !noexpand
  {
  }

  /** The head of the list and what follows it. */
  lemma FirstTwo(t: Table)
    requires t.Valid()
    ensures t.head == OrNull(t.order, 0) && (t.head == null <==> t.order == [])
    ensures (t.order == [] ==> OrNull(t.order, 1) == null)
    ensures t.order != [] ==>
      && t.order[0] == t.head && t.head.next == OrNull(t.order, 1) && NoDup(t.order)
      && OrNull(t.order, 1) == OrNull(t.order[1..], 0) && (|t.order| == 1 ==> OrNull(t.order, 1) == null)
  {
  }

  /** Only the first place holds the first item. */
  lemma DropFirst(s: seq<Item>)
    requires s != [] && NoDup(s)
    ensures forall k | 0 <= k < |s| :: s[k] == s[0] ==> Without(s, k) == s[1..]
  {
  }

  lemma EmptyList()
    ensures ListOk(null, null, []) && UniqueKeys([])
  {
  }

  lemma {:induction false} MapSize(s: seq<Item>)
    requires UniqueKeys(s)
    ensures |MapOf(s)| == |s|
  {
    if s != [] {
      var n := |s| - 1;
      MapSize(s[..n]);
      MapIs(s[..n], s[n].key);
      assert MapOf(s).Keys == MapOf(s[..n]).Keys + {s[n].key};
    }
  }

  /** The links around the k-th item of the list. */
  lemma ListAt(head: Item?, tail: Item?, s: seq<Item>, k: nat)
    requires ListOk(head, tail, s) && k < |s|
    ensures var x := s[k];
      && x.prev == OrNull(s, k - 1) && x.next == OrNull(s, k + 1) && NoDup(s)
      && head == OrNull(s, 0) && tail == OrNull(s, |s| - 1)
      && (head == x <==> k == 0) && (tail == x <==> k == |s| - 1)
      && x.prev != x && x.next != x && (x.next != null ==> x.next != x.prev)
  {
  }

  lemma ListEnds(head: Item?, tail: Item?, s: seq<Item>)
    requires ListOk(head, tail, s)
    ensures head == OrNull(s, 0) && OrNull(s, |s|) == null
    ensures forall k | 0 <= k < |s| :: OrNull(s, k) != null
  {
  }

  lemma WalkOn(head: Item?, tail: Item?, s: seq<Item>, k: nat)
    requires ListOk(head, tail, s) && k <= |s| && OrNull(s, k) != null
    ensures k < |s| && s[k] == OrNull(s, k) && s[k].next == OrNull(s, k + 1)
  {
  }

  /** The links of the list without its k-th element. */
  twostate lemma Relinked(s: seq<Item>, new k: nat)
    requires k < |s| && NoDup(s) && old(Chained(s))
    requires forall y <- s :: y.prev == if y == OrNull(s, k + 1) then OrNull(s, k - 1) else old(y.prev)
    requires forall y <- s :: y.next == if y == OrNull(s, k - 1) then OrNull(s, k + 1) else old(y.next)
    ensures NoDup(Without(s, k)) && Chained(Without(s, k))
  {
    hide NoDup, Without;
    WithoutMembers(s, k);
    var w := Without(s, k);
    forall j | 0 <= j < |w| ensures w[j].prev == OrNull(w, j - 1) && w[j].next == OrNull(w, j + 1) {
      ItemNeighbours(s, k, j);
      var i := if j < k then j else j + 1;
      assert w[j] == s[i] && s[i] in s;
    }
  }

  lemma EndsWithout(s: seq<Item>, k: nat)
    requires k < |s| && |s| > 1
    ensures OrNull(Without(s, k), 0) == OrNull(s, if k == 0 then 1 else 0)
    ensures OrNull(Without(s, k), |s| - 2) == OrNull(s, if k == |s| - 1 then |s| - 2 else |s| - 1)
  {
  }

  lemma PowStep(k: nat)
    ensures Pow2(k + 1) == 2 * Pow2(k)
  {
  }

  /** c is n / b rounded up. */
  predicate IsCeil(c: nat, n: nat, b: nat) {
    c > 0 && c * b >= n && (c - 1) * b < n
  }

  /** The ideal chain length for n items once the b buckets are doubled. */
  method IdealLength(n: nat, lg: nat, b: nat) returns (c: nat)
    requires n > 0 && b == Pow2(lg)
    ensures c > 0 && IsCeil(c, n, 2 * b)
  {
    hide And, Shr, Pow2;
    PowStep(lg);
    c := Shr(n, lg + 1) + if And(n, b * 2 - 1) != 0 then 1 else 0;
    CeilFormula(n, lg + 1);
  }

  lemma ShrOne(n: nat)
    ensures Shr(n, 1) == n / 2
  {
    assert Shr(n / 2, 0) == n / 2;
  }

  lemma KeysMore(s: seq<Item>, x: Item)
    requires UniqueKeys(s) && x.key !in MapOf(s)
    ensures UniqueKeys(s + [x])
  {
    hide MapOf;
    MapAt(s);
  }

  lemma LastOf(s: seq<Item>, x: Item)
    requires NoDup(s) && x !in s
    ensures NoDup(s + [x]) && forall i | 0 <= i < |s| - 1 :: s[i] != s[|s| - 1]
  {
  }

  lemma OrNullMore(s: seq<Item>, x: Item, i: int)
    ensures OrNull(s + [x], i) == if i == |s| then x else if i > |s| then null else OrNull(s, i)
  {
  }

  lemma OrNullLast(s: seq<Item>)
    ensures s != [] ==> OrNull(s, |s| - 1) == s[|s| - 1]
    ensures OrNull(s, 0) == null <==> s == []
    ensures OrNull(s, |s|) == OrNull(s, -1) == null && (OrNull(s, |s| - 1) == null <==> s == [])
  {
  }

  lemma ItemsMore(s: seq<Item>, x: Item)
    ensures SetOf(s + [x]) == SetOf(s) + {x}
  {
  }

  lemma HeadIs(t: Table)
    requires t.Valid()
    ensures t.head == null <==> t.order == []
  {
  }

  /** The test of HASH_FIND_IN_BKT. */
  predicate Matches(x: Item, key: Key, hashv: nat)
    reads x`hashv
  {
    x.hashv == hashv && x.key == key
  }

  /** An item that matches is the one the map has for the key. */
  lemma FoundIs(s: seq<Item>, key: Key, hashv: nat, out: Item?)
    requires UniqueKeys(s) && forall x <- s :: x.key == key ==> x.hashv == hashv
    requires if out == null then forall x <- s :: !Matches(x, key, hashv) else out in s && Matches(out, key, hashv)
    ensures out == if key in MapOf(s) then MapOf(s)[key] else null
  {
    hide MapOf, UniqueKeys;
    MapIs(s, key);
    if out != null {
      InMap(s, out);
      SameKey(s, out, MapOf(s)[key]);
    }
  }

  lemma HeadOf(b: Bucket)
    requires ChainOk(b)
    ensures b.head == OrNull(b.chain, 0)
  {
  }

  lemma NoneMatches(bs: seq<Bucket>, items: set<Item>, i: nat, key: Key, hashv: nat)
    requires Homes(bs, items) && i < |bs| && i == Home(hashv, |bs|)
    requires forall m | 0 <= m < |bs[i].chain| :: !Matches(bs[i].chain[m], key, hashv)
    ensures forall x <- items :: !Matches(x, key, hashv)
  {
    hide NoDup, Home;
    forall x <- items ensures !Matches(x, key, hashv) {
      if x.hashv == hashv { assert x in bs[i].chain; }
    }
  }

  /** A chain holds exactly the items whose hash value leads to it. */
  lemma ChainHome(bs: seq<Bucket>, items: set<Item>, i: nat)
    requires Homes(bs, items) && i < |bs|
    ensures forall x <- items :: Home(x.hashv, |bs|) == i ==> x in bs[i].chain
    ensures forall x <- bs[i].chain :: x in items
  {
  }

  /** HASH_FIND_IN_BKT. */
  method FindInBucket(b: Bucket, key: Key, hashv: nat, ghost i: nat, ghost bs: seq<Bucket>, ghost items: set<Item>)
    returns (out: Item?)
    requires BucketsOk(bs, items) && i < |bs| && b == bs[i] && i == Home(hashv, |bs|)
    ensures out == null ==> forall x <- items :: !Matches(x, key, hashv)
    ensures out != null ==> out in items && Matches(out, key, hashv)
  {
    hide NoDup, Home, Homes, Matches, ChainOk;
    ghost var j := 0;
    assert ChainOk(b);
    HeadOf(b);
    ChainHome(bs, items, i);
    out := b.head;
    while out != null
      invariant j <= |b.chain| && out == OrNull(b.chain, j)
      invariant forall m | 0 <= m < j :: !Matches(b.chain[m], key, hashv)
      decreases |b.chain| - j
    {
      ChainAt(b, j);
      if Matches(out, key, hashv) { return; }
      out, j := out.hhNext, j + 1;
    }
    NoneMatches(bs, items, i, key, hashv);
  }

  class Table {
    const hash: Key -> nat
    var head: Item?
    var tail: Item?
    var buckets: seq<Bucket>
    var numBuckets: nat
    var log2: nat
    var numItems: nat
    var idealMax: nat
    var nonideal: nat
    var ineffExpands: nat
    var noexpand: bool
    ghost var order: seq<Item>
    ghost var items: set<Item>

    /** The bucket side; without items there is no table. */
    ghost predicate Indexed()
      reads this, buckets, items
    {
      && BucketsOk(buckets, items) && |buckets| == numBuckets == Pow2(log2) && numItems == |order|
    }

    ghost predicate Valid()
      reads this, buckets, items, order
    {
      && ListOk(head, tail, order) && UniqueKeys(order) && items == SetOf(order)
      && (forall x <- items :: x.hashv == hash(x.key))
      && (order != [] ==> Indexed())
    }

    constructor (hash: Key -> nat)
      ensures Valid() && order == [] && this.hash == hash && buckets == [] && items == {}
    {
      this.hash := hash;
      head, tail, buckets, order, items := null, null, [], [], {};
      numBuckets, log2, numItems, idealMax, nonideal, ineffExpands, noexpand := 0, 0, 0, 0, 0, 0, false;
    }

    /** HASH_FIND: exactly the lookup in the finite map. */
    method Find(key: Key) returns (out: Item?)
      requires Valid()
      ensures out == if key in MapOf(order) then MapOf(order)[key] else null
    {
      hide NoDup, BucketsOk, ListOk, MapOf, Home, UniqueKeys, Matches;
      out := null;
      HeadIs(this);
      if head != null {
        var hashv := hash(key);
        MaskIsMod(hashv, log2);
        var b := buckets[And(hashv, numBuckets - 1)];
        out := FindInBucket(b, key, hashv, And(hashv, numBuckets - 1), buckets, items);
      }
      FoundIs(order, key, hash(key), out);
    }

    /** HASH_MAKE_TABLE. */
    method MakeTable()
      modifies this`buckets, this`numBuckets, this`log2, this`numItems, this`idealMax, this`nonideal,
        this`ineffExpands, this`noexpand
      ensures fresh(buckets) && BucketsOk(buckets, {}) && |buckets| == numBuckets == Pow2(log2) && numItems == 0
      ensures numBuckets == 32 && ineffExpands == 0 && !noexpand
    {
      hide BucketsOk;
      numItems, idealMax, nonideal, ineffExpands, noexpand := 0, 0, 0, 0, false;
      numBuckets, log2 := 32, INITIAL_LOG2;
      assert Pow2(INITIAL_LOG2) == 2 * Pow2(4) == 4 * Pow2(3) == 8 * Pow2(2) == 16 * Pow2(1) == 32 * Pow2(0);
      buckets := NewBuckets(numBuckets);
    }

    /** HASH_EXPAND_BUCKETS: the buckets double; `nonideal` is the total excess of the
        chains over the ideal length, which is the rounded-up share of a bucket. */
    method ExpandBuckets()
      requires BucketsOk(buckets, items) && |buckets| == numBuckets == Pow2(log2) && numItems > 0
      modifies this`buckets, this`numBuckets, this`log2, this`idealMax, this`nonideal, this`ineffExpands, this`noexpand
      modifies items`hhPrev, items`hhNext
      ensures fresh(buckets) && BucketsOk(buckets, items) && |buckets| == numBuckets == Pow2(log2)
      ensures numBuckets == 2 * old(numBuckets)
      ensures nonideal == SumExcess(Counts(buckets), idealMax)
      ensures IsCeil(idealMax, numItems, numBuckets)
      ensures Mults(buckets, idealMax)
      ensures ineffExpands == if nonideal > numItems / 2 then old(ineffExpands) + 1 else 0
      ensures noexpand <==> old(noexpand) || ineffExpands > 1
    {
      hide BucketsOk, SumExcess, Counts, And, Shr, Pow2, IsCeil, Mults;
      PowStep(log2);
      idealMax := IdealLength(numItems, log2, numBuckets);
      var nbs;
      nbs, nonideal := Redistribute(buckets, idealMax, log2 + 1, items);
      numBuckets := numBuckets * 2;
      log2 := log2 + 1;
      buckets := nbs;
      ShrOne(numItems);
      ineffExpands := if nonideal > Shr(numItems, 1) then ineffExpands + 1 else 0;
      if ineffExpands > 1 { noexpand := true; }
    }

    /** x enters its bucket; whether the bucket asks for doubling. */
    method Enroll(x: Item) returns (full: bool)
      requires BucketsOk(buckets, items) && |buckets| == numBuckets == Pow2(log2) && x !in items
      modifies this`numItems, this`items, buckets, x`hhPrev, x`hhNext, items`hhPrev
      ensures BucketsOk(buckets, items) && items == old(items) + {x} && numItems == old(numItems) + 1
      ensures full <==> old(Full(buckets[Home(x.hashv, numBuckets)], noexpand))
    {
      hide BucketsOk, And, Pow2, Home, Limit, Full, Homes, NoDup;
      numItems := numItems + 1;
      MaskIsMod(x.hashv, log2);
      var bkt := And(x.hashv, numBuckets - 1);
      BucketCounts(buckets, items, bkt);
      FullIs(buckets[bkt], noexpand);
      PutInBucket(buckets, bkt, x, items);
      items := items + {x};
      BucketCounts(buckets, items, bkt);
      full := buckets[bkt].count >= Limit(buckets[bkt].expandMult) && !noexpand;
    }

    /** HASH_ADD_TO_TABLE: x enters its bucket, which may double the table. */
    method Index(x: Item)
      requires BucketsOk(buckets, items) && |buckets| == numBuckets == Pow2(log2) && x !in items
      modifies this`buckets, this`numBuckets, this`log2, this`numItems, this`idealMax, this`nonideal,
        this`ineffExpands, this`noexpand, this`items
      modifies buckets, x`hhPrev, x`hhNext, items`hhPrev, items`hhNext
      ensures BucketsOk(buckets, items) && |buckets| == numBuckets == Pow2(log2)
      ensures items == old(items) + {x} && numItems == old(numItems) + 1
      ensures buckets == old(buckets) || fresh(buckets)
      ensures numBuckets == if old(Full(buckets[Home(x.hashv, numBuckets)], noexpand))
        then 2 * old(numBuckets) else old(numBuckets)
    {
      hide BucketsOk, Pow2, Home, Mults, Full;
      var full := Enroll(x);
      if full { ExpandBuckets(); }
    }

    /** HASH_APPEND_LIST, or the first element. */
    method Append(x: Item)
      requires ListOk(head, tail, order) && x !in order
      modifies this`head, this`tail, this`order, x`prev, x`next, order`next
      ensures ListOk(head, tail, order) && order == old(order) + [x]
    {
      hide NoDup, OrNull;
      ghost var s := order;
      LastOf(s, x);
      OrNullLast(s);
      forall i: int
        ensures OrNull(s + [x], i) == if i == |s| then x else if i > |s| then null else OrNull(s, i)
      {
        OrNullMore(s, x, i);
      }
      x.next := null;
      x.prev := tail;
      assert head == null <==> s == [];
      if head == null {
        head := x;
      } else {
        tail.next := x;
      }
      tail := x;
      order := s + [x];
      forall i | 0 <= i < |order|
        ensures order[i].prev == OrNull(order, i - 1) && order[i].next == OrNull(order, i + 1)
      {
        if i < |s| { assert order[i] == s[i] && old(s[i].next == OrNull(s, i + 1)); }
      }
    }

    /** The first element makes the table. */
    method Prepare()
      requires Valid()
      modifies this`buckets, this`numBuckets, this`log2, this`numItems, this`idealMax, this`nonideal,
        this`ineffExpands, this`noexpand
      ensures Indexed() && (buckets == old(buckets) || fresh(buckets))
    {
      hide BucketsOk, ListOk, Pow2, UniqueKeys;
      HeadIs(this);
      if head == null {
        MakeTable();
        assert items == {};
      }
    }

    /** The element enters the list, and then its bucket. */
    method Enter(x: Item)
      requires ListOk(head, tail, order) && x !in order && items == SetOf(order) && Indexed()
      modifies this`head, this`tail, this`buckets, this`numBuckets, this`log2, this`numItems, this`idealMax,
        this`nonideal, this`ineffExpands, this`noexpand, this`order, this`items
      modifies buckets, x`prev, x`next, x`hhPrev, x`hhNext, order`next, items`hhPrev, items`hhNext
      ensures ListOk(head, tail, order) && Indexed()
      ensures order == old(order) + [x] && items == old(items) + {x}
      ensures buckets == old(buckets) || fresh(buckets)
    {
      hide BucketsOk, ListOk, Pow2, NoDup;
      Append(x);
      assert BucketsOk(buckets, items);
      Index(x);
      assert ListOk(head, tail, order);
    }

    /** HASH_ADD_KEYPTR, for a key that is not there yet. */
    method Add(x: Item)
      requires Valid() && x !in order && x.key !in MapOf(order)
      modifies this`head, this`tail, this`buckets, this`numBuckets, this`log2, this`numItems, this`idealMax,
        this`nonideal, this`ineffExpands, this`noexpand, this`order, this`items
      modifies buckets, x, items`next, items`hhPrev, items`hhNext
      ensures Valid() && order == old(order) + [x] && MapOf(order) == old(MapOf(order))[x.key := x]
      ensures (buckets == old(buckets) || fresh(buckets)) && items == old(items) + {x}
    {
      hide BucketsOk, ListOk, MapOf, Pow2, UniqueKeys;
      MapMore(order, x);
      KeysMore(order, x);
      ItemsMore(order, x);
      Prepare();
      x.hashv := hash(x.key);
      assert BucketsOk(buckets, items);
      Enter(x);
    }

    /** The stores of HASH_DELETE_HH to the list, with other elements around. */
    method Unlink(x: Item, ghost k: nat)
      requires ListOk(head, tail, order) && k < |order| && order[k] == x && |order| > 1
      modifies this`head, this`tail, order`prev, order`next
      ensures head == OrNull(order, if k == 0 then 1 else 0)
      ensures tail == OrNull(order, if k == |order| - 1 then |order| - 2 else |order| - 1)
      ensures forall y <- order :: y.prev == if y == OrNull(order, k + 1) then OrNull(order, k - 1) else old(y.prev)
      ensures forall y <- order :: y.next == if y == OrNull(order, k - 1) then OrNull(order, k + 1) else old(y.next)
    {
      hide NoDup, ListOk;
      ListAt(head, tail, order, k);
      if x == tail {
        tail := x.prev;
      }
      if x.prev != null {
        x.prev.next := x.next;
      } else {
        head := x.next;
      }
      if x.next != null {
        x.next.prev := x.prev;
      }
    }

    /** The list loses its k-th element. */
    method Unlist(x: Item, ghost k: nat)
      requires ListOk(head, tail, order) && k < |order| && order[k] == x && |order| > 1
      modifies this`head, this`tail, this`order, order`prev, order`next
      ensures ListOk(head, tail, order) && order == Without(old(order), k)
    {
      hide NoDup, Without, OrNull;
      ghost var s := order;
      EndsWithout(s, k);
      WithoutAt(s, k);
      label before:
      Unlink(x, k);
      order := Without(s, k);
      Relinked@before(s, k);
    }

    /** HASH_DELETE with other elements around. */
    method DeleteOne(x: Item, ghost k: nat)
      requires ListOk(head, tail, order) && items == SetOf(order) && Indexed()
      requires k < |order| && order[k] == x && |order| > 1
      modifies this`head, this`tail, this`numItems, this`order, this`items, buckets, items
      ensures ListOk(head, tail, order) && Indexed()
      ensures order == Without(old(order), k) && items == old(items) - {x}
      ensures forall y <- items :: y.hashv == old(y.hashv)
    {
      hide BucketsOk, ListOk, Pow2, Without, NoDup, And;
      WithoutAt(order, k);
      Unlist(x, k);
      MaskIsMod(x.hashv, log2);
      TakeFromBucket(buckets, And(x.hashv, numBuckets - 1), x, items);
      items := items - {x};
      numItems := numItems - 1;
    }

    /** HASH_DELETE. */
    method Delete(x: Item)
      requires Valid() && x in order
      modifies this`head, this`tail, this`buckets, this`numItems, this`order, this`items
      modifies buckets, items
      ensures Valid() && MapOf(order) == old(MapOf(order)) - {x.key}
      ensures exists k | 0 <= k < |old(order)| :: old(order)[k] == x && order == Without(old(order), k)
      ensures (buckets == old(buckets) || buckets == []) && items <= old(items)
    {
      hide BucketsOk, ListOk, MapOf, Without, NoDup, UniqueKeys;
      ghost var k :| 0 <= k < |order| && order[k] == x;
      ListAt(head, tail, order, k);
      MapLess(order, k);
      WithoutAt(order, k);
      if x.prev == null && x.next == null {
        head, tail, buckets := null, null, [];
        order := Without(order, k);
        items := {};
        EmptyList();
        assert order == [];
      } else {
        DeleteOne(x, k);
      }
    }

    /** HASH_ITER: the keys in order of insertion. */
    method Keys() returns (ks: seq<Key>)
      requires Valid()
      ensures |ks| == |order| && forall i | 0 <= i < |ks| :: ks[i] == order[i].key
    {
      hide Indexed, UniqueKeys, ListOk, OrNull;
      ListEnds(head, tail, order);
      ks := [];
      var el := head;
      while el != null
        invariant |ks| <= |order| && el == OrNull(order, |ks|)
        invariant forall i | 0 <= i < |ks| :: ks[i] == order[i].key
        decreases |order| - |ks|
      {
        WalkOn(head, tail, order, |ks|);
        ks, el := ks + [el.key], el.next;
      }
    }

    /** HASH_ITER with the current element deleted in each round, as `tmp` allows: every item
        is visited once, in order of insertion, and none is left. */
    method Drain() returns (ks: seq<Key>)
      requires Valid()
      modifies this`head, this`tail, this`buckets, this`numItems, this`order, this`items
      modifies buckets, items
      ensures Valid() && order == []
      ensures |ks| == |old(order)| && forall i | 0 <= i < |ks| :: ks[i] == old(order)[i].key
    {
      hide Valid, MapOf, Without, OrNull;
      ghost var s := order;
      ks := [];
      FirstTwo(this);
      var el, tmp := head, if head != null then head.next else null;
      while el != null
        invariant Valid() && |ks| <= |s| && order == s[|ks|..]
        invariant el == OrNull(order, 0) && tmp == OrNull(order, 1)
        invariant forall i | 0 <= i < |ks| :: ks[i] == s[i].key
        invariant (buckets == old(buckets) || buckets == []) && items <= old(items)
        decreases |s| - |ks|
      {
        FirstTwo(this);
        DropFirst(order);
        ks := ks + [el.key];
        Delete(el);
        FirstTwo(this);
        el := tmp;
        tmp := if tmp != null then tmp.next else null;
      }
      FirstTwo(this);
    }

    /** HASH_COUNT. */
    method Count() returns (n: nat)
      requires Valid()
      ensures n == |order| == |MapOf(order)|
    {
      hide BucketsOk, ListOk, MapOf;
      HeadIs(this);
      MapSize(order);
      n := if head != null then numItems else 0;
    }
  }

  // ---- sequences of operations

  datatype Op = Insert(key: Key) | Remove(key: Key)

  ghost function KeySeq(s: seq<Item>): (ks: seq<Key>)
    ensures |ks| == |s| && forall i | 0 <= i < |ks| :: ks[i] == s[i].key
  {
    seq(|s|, i requires 0 <= i < |s| => s[i].key)
  }

  /** ks without q. */
  ghost function Minus<T>(ks: seq<T>, q: T): seq<T> {
    if ks == [] then []
    else Minus(ks[..|ks| - 1], q) + if ks[|ks| - 1] == q then [] else [ks[|ks| - 1]]
  }

  /** The keys present, in order of insertion: an insertion of a key that is there
      changes nothing, and so does the removal of one that is not. */
  ghost function After(ops: seq<Op>): seq<Key> {
    if ops == [] then []
    else
      var ks := After(ops[..|ops| - 1]);
      match ops[|ops| - 1]
      case Insert(key) => if key in ks then ks else ks + [key]
      case Remove(key) => Minus(ks, key)
  }

  lemma {:induction false} MinusAbsent<T>(ks: seq<T>, q: T)
    requires q !in ks
    ensures Minus(ks, q) == ks
  {
    if ks != [] {
      var n := |ks| - 1;
      assert ks == ks[..n] + [ks[n]];
      MinusAbsent(ks[..n], q);
    }
  }

  /** The last element is not among those before it. */
  lemma LastApart<T>(s: seq<T>)
    requires NoDup(s) && s != []
    ensures NoDup(s[..|s| - 1]) && s[|s| - 1] !in s[..|s| - 1]
  {
    var n := |s| - 1;
    forall y | y in s[..n] ensures y != s[n] {
      var i :| 0 <= i < n && s[i] == y;
    }
  }

  lemma WithoutLast<T>(s: seq<T>, k: nat)
    requires k < |s|
    ensures k == |s| - 1 ==> Without(s, k) == s[..k]
    ensures k < |s| - 1 ==> Without(s, k) == Without(s[..|s| - 1], k) + [s[|s| - 1]]
  {
  }

  lemma {:induction false} MinusIsWithout<T>(ks: seq<T>, k: nat)
    requires NoDup(ks) && k < |ks|
    ensures Minus(ks, ks[k]) == Without(ks, k)
  {
    hide NoDup, Without;
    var n := |ks| - 1;
    LastApart(ks);
    WithoutLast(ks, k);
    if k < n {
      assert ks[..n][k] == ks[k];
      MinusIsWithout(ks[..n], k);
    } else {
      MinusAbsent(ks[..n], ks[n]);
    }
  }

  lemma KeysWithout(s: seq<Item>, k: nat)
    requires UniqueKeys(s) && k < |s|
    ensures KeySeq(Without(s, k)) == Minus(KeySeq(s), s[k].key)
  {
    hide Minus;
    var ks := KeySeq(s);
    MinusIsWithout(ks, k);
    assert KeySeq(Without(s, k)) == Without(ks, k);
  }

  lemma NoKeys()
    ensures KeySeq([]) == []
  {
  }

  lemma KeyIn(s: seq<Item>, q: Key)
    requires UniqueKeys(s)
    ensures q in KeySeq(s) <==> q in MapOf(s)
    ensures q in MapOf(s) ==> MapOf(s)[q] in s && MapOf(s)[q].key == q
  {
    hide MapOf, UniqueKeys;
    MapIs(s, q);
    if i :| 0 <= i < |s| && s[i].key == q { assert KeySeq(s)[i] == q; }
    if q in KeySeq(s) {
      var i :| 0 <= i < |s| && KeySeq(s)[i] == q;
      assert s[i].key == q;
    }
  }

  /** One operation, as the clients of the table do it. */
  method Perform(t: Table, op: Op)
    requires t.Valid()
    modifies t, t.buckets, t.items
    ensures t.Valid()
    ensures KeySeq(t.order) == match op
      case Insert(key) => (if key in old(KeySeq(t.order)) then old(KeySeq(t.order)) else old(KeySeq(t.order)) + [key])
      case Remove(key) => Minus(old(KeySeq(t.order)), key)
    ensures (t.buckets == old(t.buckets) || fresh(t.buckets)) && fresh(t.items - old(t.items))
  {
    hide BucketsOk, ListOk, MapOf, Minus, NoDup, Without;
    ghost var s := t.order;
    var out := t.Find(op.key);
    KeyIn(s, op.key);
    if op.Insert? && out == null {
      out := new Item(op.key, 0);
      t.Add(out);
      assert KeySeq(s + [out]) == KeySeq(s) + [op.key];
    } else if op.Remove? && out != null {
      t.Delete(out);
      ghost var k :| 0 <= k < |s| && s[k] == out && t.order == Without(s, k);
      KeysWithout(s, k);
    } else if op.Remove? {
      MinusAbsent(KeySeq(s), op.key);
    }
  }

  /** Any sequence of find-then-add and find-then-delete, with any hash function, leaves
      the table with the keys, and the order, of the plain list. */
  method Replay(hash: Key -> nat, ops: seq<Op>) returns (t: Table)
    ensures fresh(t) && t.Valid() && KeySeq(t.order) == After(ops)
  {
    hide BucketsOk, ListOk, MapOf, Minus, NoDup, Without, KeySeq;
    t := new Table(hash);
    NoKeys();
    for i := 0 to |ops|
      invariant t.Valid() && KeySeq(t.order) == After(ops[..i])
      invariant fresh(t) && fresh(t.buckets) && fresh(t.items)
    {
      assert ops[..i + 1][..i] == ops[..i];
      Perform(t, ops[i]);
    }
    assert ops[..|ops|] == ops;
  }
}
