/** The mapping server of lpmapser.c on its hash table, and what its answers mean for the
    inode servers. */
module MapServers {
  import opened HashIndex
  import opened HashTables
  import opened Ownership

  /** An inode number is a key of eight bytes. */
  function Bytes(n: nat, k: nat): Key {
    if k == 0 then [] else [n % 256] + Bytes(n / 256, k - 1)
  }

  function Pow256(k: nat): nat {
    if k == 0 then 1 else 256 * Pow256(k - 1)
  }

  lemma {:induction false} BytesApart(m: nat, n: nat, k: nat)
    requires m < Pow256(k) && n < Pow256(k) && Bytes(m, k) == Bytes(n, k)
    ensures m == n
  {
    if k > 0 {
      assert Bytes(m, k)[0] == Bytes(n, k)[0] && Bytes(m, k)[1..] == Bytes(n, k)[1..];
      BytesApart(m / 256, n / 256, k - 1);
    }
  }

  function KeyOf(ino: nat): Key { Bytes(ino, 8) }

  /** The numbers of the type ino_t. */
  ghost predicate IsIno(n: nat) { n < Pow256(8) }

  lemma KeysApart(m: nat, n: nat)
    requires IsIno(m) && IsIno(n) && KeyOf(m) == KeyOf(n)
    ensures m == n
  {
    BytesApart(m, n, 8);
  }

  /** The hash table holds exactly the mapping m. */
  ghost predicate Represents(s: seq<Item>, m: map<nat, nat>) {
    && (forall n | n in m :: IsIno(n))
    && forall n: nat | IsIno(n) ::
        && (n in m <==> KeyOf(n) in MapOf(s))
        && (n in m ==> m[n] == MapOf(s)[KeyOf(n)].value)
  }

  lemma Added(s: seq<Item>, u: seq<Item>, m: map<nat, nat>, n: nat, x: Item)
    requires Represents(s, m) && IsIno(n) && x.key == KeyOf(n) && MapOf(u) == MapOf(s)[x.key := x]
    ensures Represents(u, m[n := x.value])
  {
    hide MapOf, KeyOf, IsIno;
    forall k: nat | IsIno(k) && KeyOf(k) == KeyOf(n) ensures k == n { KeysApart(k, n); }
  }

  lemma Dropped(s: seq<Item>, u: seq<Item>, m: map<nat, nat>, n: nat)
    requires Represents(s, m) && IsIno(n) && MapOf(u) == MapOf(s) - {KeyOf(n)}
    ensures Represents(u, m - {n})
  {
    hide MapOf, KeyOf, IsIno;
    forall k: nat | IsIno(k) && KeyOf(k) == KeyOf(n) ensures k == n { KeysApart(k, n); }
  }

  /** A new item with a key that is not there is not in the list. */
  lemma NotListed(t: Table, x: Item)
    requires t.Valid() && x.key !in MapOf(t.order)
    ensures x !in t.order
  {
    hide MapOf;
    if x in t.order { InMap(t.order, x); }
  }

  lemma Looked(s: seq<Item>, m: map<nat, nat>, n: nat)
    requires Represents(s, m) && IsIno(n)
    ensures (n in m <==> KeyOf(n) in MapOf(s)) && (n in m ==> m[n] == MapOf(s)[KeyOf(n)].value)
  {
  }

  lemma FoundHere(t: Table, key: Key)
    requires t.Valid() && key in MapOf(t.order)
    ensures MapOf(t.order)[key] in t.order && MapOf(t.order)[key].key == key
  {
    MapIs(t.order, key);
  }

  class MapServer {
    const table: Table
    ghost var mapping: map<nat, nat>

    ghost predicate Valid()
      reads this, table, table.buckets, table.items, table.order
    {
      table.Valid() && Represents(table.order, mapping)
    }

    constructor (hash: Key -> nat)
      ensures Valid() && mapping == map[] && fresh(table) && fresh(table.buckets) && fresh(table.items)
    {
      table := new Table(hash);
      mapping := map[];
    }

    /** 'G'. */
    method Get(lino: nat) returns (pino: nat)
      requires Valid() && IsIno(lino)
      ensures pino == if lino in mapping then mapping[lino] else 0
    {
      hide Table.Valid, MapOf, KeyOf, IsIno, Represents;
      Looked(table.order, mapping, lino);
      var hi := table.Find(KeyOf(lino));
      pino := if hi != null then hi.value else 0;
    }

    /** 'P': the mapping is made unless there is one; the one in force is returned. */
    method PutIfAbsent(lino: nat, pino0: nat) returns (pino: nat)
      requires Valid() && IsIno(lino)
      modifies this, table, table.buckets, table.items
      ensures Valid() && (mapping, pino) == Put(old(mapping), lino, pino0)
      ensures table.buckets == old(table.buckets) || fresh(table.buckets)
      ensures fresh(table.items - old(table.items))
    {
      hide Table.Valid, MapOf, KeyOf, IsIno, Represents;
      ghost var s, m := table.order, mapping;
      Looked(s, m, lino);
      var hi := table.Find(KeyOf(lino));
      pino := pino0;
      if hi != null {
        pino := hi.value;
      } else {
        hi := new Item(KeyOf(lino), pino);
        NotListed(table, hi);
        table.Add(hi);
        mapping := mapping[lino := pino];
        Added(s, table.order, m, lino, hi);
      }
    }

    /** 'D': the entry, if there is one, is removed and returned. */
    method Remove(lino: nat) returns (pino: nat)
      requires Valid() && IsIno(lino)
      modifies this, table, table.buckets, table.items
      ensures Valid() && mapping == old(mapping) - {lino}
      ensures pino == if lino in old(mapping) then old(mapping)[lino] else 0
      ensures table.buckets == old(table.buckets) || table.buckets == []
      ensures table.items <= old(table.items)
    {
      hide Table.Valid, MapOf, KeyOf, IsIno, Represents;
      pino := 0;
      ghost var s, m := table.order, mapping;
      Looked(s, m, lino);
      var hi := table.Find(KeyOf(lino));
      if hi != null {
        pino := hi.value;
        FoundHere(table, KeyOf(lino));
        table.Delete(hi);
        mapping := mapping - {lino};
        Dropped(s, table.order, m, lino);
      } else {
        assert mapping - {lino} == mapping;
      }
    }

    /** One request of the loop; 0 stands for no number. */
    method Request(com: char, lino: nat, pino0: nat) returns (pino: nat)
      requires Valid() && IsIno(lino)
      modifies this, table, table.buckets, table.items
      ensures Valid()
      ensures com == 'P' ==> (mapping, pino) == Put(old(mapping), lino, pino0)
      ensures com == 'D' ==> mapping == old(mapping) - {lino}
      ensures com == 'G' || com == 'D' ==> pino == if lino in old(mapping) then old(mapping)[lino] else 0
      ensures com != 'P' && com != 'D' ==> mapping == old(mapping)
      ensures table.buckets == old(table.buckets) || table.buckets == [] || fresh(table.buckets)
      ensures fresh(table.items - old(table.items))
    {
      hide Valid;
      pino := 0;
      match com
      case 'G' => pino := Get(lino);
      case 'P' => pino := PutIfAbsent(lino, pino0);
      case 'D' => pino := Remove(lino);
      case _ =>
    }
  }

  /** A server's 'P' taken by the mapping server is the protocol's step: the mapping and the
      answer are the step's. */
  method TakePut(ms: MapServer, lino: nat, pino: nat, ghost s: State, ghost i: nat) returns (answer: nat)
    requires ms.Valid() && IsIno(lino) && ms.mapping == s.mapping
    requires Enabled(s, MapPut(i)) && s.servers[i].creation == Asked(lino, pino)
    modifies ms, ms.table, ms.table.buckets, ms.table.items
    ensures ms.Valid() && ms.mapping == Apply(s, MapPut(i)).mapping
    ensures Apply(s, MapPut(i)).servers[i].creation == Told(lino, pino, answer)
  {
    answer := ms.Request('P', lino, pino);
  }

  /** A release's 'D' taken by the mapping server is the protocol's step, and the entry it
      removes, which it answers, is the released inode's own. */
  method TakeDelete(ms: MapServer, lino: nat, ghost s: State, ghost i: nat, ghost ino: nat) returns (answer: nat)
    requires ms.Valid() && IsIno(lino) && ms.mapping == s.mapping && Inv(s)
    requires Enabled(s, MapDelete(i, ino)) && lino == s.servers[i].releasing[ino]
    modifies ms, ms.table, ms.table.buckets, ms.table.items
    ensures ms.Valid() && ms.mapping == Apply(s, MapDelete(i, ino)).mapping && answer == ino
  {
    assert Holds(s.servers[i], ino, lino);
    answer := ms.Request('D', lino, 0);
  }
}
