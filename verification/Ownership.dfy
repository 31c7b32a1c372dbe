/** Who owns a base inode: several inode servers create and release inodes through one
    mapping server (incont.c under WITH_MAPSERVER, lpmapser.c).  A message to the mapping
    server takes effect some time between being sent and being answered; every interleaving
    of the servers is a sequence of the steps below. */
module Ownership {
  import opened HashMath

  // ---- the mapping server

  /** 'P': the mapping is made unless there is one; the one in force is returned. */
  ghost function Put(m: map<nat, nat>, lino: nat, pino: nat): (map<nat, nat>, nat) {
    if lino in m then (m, m[lino]) else (m[lino := pino], pino)
  }

  // ---- inode numbers

  const LOW: nat := 0xFFFF_FFFF

  /** x | y. */
  function Or(x: nat, y: nat): nat
    decreases x + y
  {
    if x == 0 then y else if y == 0 then x
    else 2 * Or(x / 2, y / 2) + if x % 2 == 1 || y % 2 == 1 then 1 else 0
  }

  lemma OrStep(x: nat, y: nat)
    ensures Or(x, y) == if x == 0 then y else if y == 0 then x
      else 2 * Or(x / 2, y / 2) + if x % 2 == 1 || y % 2 == 1 then 1 else 0
  {
  }

  lemma HalvesDivide(x: nat, p: nat)
    requires p > 0
    ensures x / 2 / p == x / (2 * p) && 2 * (x / 2 / p * p) == x / (2 * p) * (2 * p)
  {
    var q, r := x / 2 / p, x / 2 % p;
    assert x / 2 == p * q + r;
    assert x == (2 * p) * q + (2 * r + x % 2);
    ModUnique(x, 2 * p, q, 2 * r + x % 2);
  }

  /** Setting the low k bits. */
  lemma {:induction false} OrLowBits(x: nat, k: nat)
    ensures Or(x, Pow2(k) - 1) == x / Pow2(k) * Pow2(k) + (Pow2(k) - 1)
    decreases k
  {
    hide Or;
    OrStep(x, Pow2(k) - 1);
    if k > 0 {
      var p := Pow2(k - 1);
      MaskHalves(p);
      OrLowBits(x / 2, k - 1);
      HalvesDivide(x, p);
      if x == 0 { assert 0 / (2 * p) == 0; }
    }
  }

  /** init_inode_container: the first number of a node, and the one it stops at. */
  ghost function FirstIno(nodeid: nat): nat { nodeid * (LOW + 1) + 1 }
  ghost function LastIno(nodeid: nat): nat { Or(FirstIno(nodeid), LOW) }

  lemma LowIs()
    ensures Pow2(32) == LOW + 1
  {
    assert Pow2(8) == 16 * Pow2(4) == 256;
    assert Pow2(16) == 256 * Pow2(8);
    assert Pow2(24) == 256 * Pow2(16);
    assert Pow2(32) == 256 * Pow2(24);
  }

  lemma LastIs(n: nat)
    ensures LastIno(n) == n * (LOW + 1) + LOW
  {
    hide Or;
    LowIs();
    OrLowBits(FirstIno(n), 32);
    assert (n * (LOW + 1) + 1) / (LOW + 1) == n;
  }

  /** The ranges of different nodes do not meet, and stay within 64 bits. */
  lemma RangesApart(m: nat, n: nat, x: nat)
    requires m != n && FirstIno(m) <= x <= LastIno(m)
    ensures !(FirstIno(n) <= x <= LastIno(n))
    ensures m <= LOW ==> 0 < x < (LOW + 1) * (LOW + 1)
  {
    LastIs(m);
    LastIs(n);
  }

  // ---- the protocol

  /** A creation under way holds imlock, so a server has at most one. */
  datatype Creation =
    | Idle
    | Asked(base: nat, ino: nat)               // 'P' sent
    | Told(base: nat, ino: nat, answer: nat)   // answered, not yet read

  /** `next` is inodebase; `live` gives the base of each inode that is not deleted, and
      `releasing` of each deleted one whose 'D' has not taken effect. */
  datatype Server = Server(nodeid: nat, next: nat, creation: Creation, live: map<nat, nat>, releasing: map<nat, nat>)

  /** `issued` logs the numbers given to new inodes. */
  datatype State = State(mapping: map<nat, nat>, servers: seq<Server>, issued: seq<nat>)

  datatype Step =
    | Create(i: nat, base: nat)
    | MapPut(i: nat)
    | Created(i: nat)
    | Release(i: nat, ino: nat)
    | MapDelete(i: nat, ino: nat)

  ghost predicate Enabled(s: State, step: Step) {
    step.i < |s.servers| && var v := s.servers[step.i];
    match step
    case Create(_, base) => v.creation.Idle? && v.next != LastIno(v.nodeid)  // otherwise INO_FULL
    case MapPut(_) => v.creation.Asked?
    case Created(_) => v.creation.Told?
    case Release(_, ino) => ino in v.live
    case MapDelete(_, ino) => ino in v.releasing
  }

  ghost function Apply(s: State, step: Step): State
    requires Enabled(s, step)
  {
    var i, v := step.i, s.servers[step.i];
    match step
    case Create(_, base) => s.(servers := s.servers[i := v.(creation := Asked(base, v.next))])
    case MapPut(_) =>
      var c := v.creation;
      var (m, answer) := Put(s.mapping, c.base, c.ino);
      s.(mapping := m, servers := s.servers[i := v.(creation := Told(c.base, c.ino, answer))])
    case Created(_) =>
      var c := v.creation;
      if c.answer != c.ino then s.(servers := s.servers[i := v.(creation := Idle)])  // ALREADY_CREATED
      else s.(issued := s.issued + [c.ino],
        servers := s.servers[i := v.(creation := Idle, next := v.next + 1, live := v.live[c.ino := c.base])])
    case Release(_, ino) =>
      s.(servers := s.servers[i := v.(live := v.live - {ino}, releasing := v.releasing[ino := v.live[ino]])])
    case MapDelete(_, ino) =>
      s.(mapping := s.mapping - {v.releasing[ino]}, servers := s.servers[i := v.(releasing := v.releasing - {ino})])
  }

  /** Distinct node ids, and nothing created yet. */
  ghost predicate Init(s: State) {
    && (forall i, j | 0 <= i < j < |s.servers| :: s.servers[i].nodeid != s.servers[j].nodeid)
    && (forall i | 0 <= i < |s.servers| :: var v := s.servers[i];
        && v.nodeid <= LOW && v.next == FirstIno(v.nodeid)
        && v.creation == Idle && v.live == map[] && v.releasing == map[])
    && s.mapping == map[] && s.issued == []
  }

  /** v has inode n for base b: live, being released, or won but not yet entered. */
  ghost predicate Holds(v: Server, n: nat, b: nat) {
    || (n in v.live && v.live[n] == b) || (n in v.releasing && v.releasing[n] == b)
    || v.creation == Told(b, n, n)
  }

  /** The numbers a server deals with are its own and used once. */
  ghost predicate Numbered(v: Server) {
    && FirstIno(v.nodeid) <= v.next <= LastIno(v.nodeid) && v.nodeid <= LOW
    && (forall n | n in v.live || n in v.releasing :: FirstIno(v.nodeid) <= n < v.next)
    && v.live.Keys !! v.releasing.Keys
    && (!v.creation.Idle? ==> v.creation.ino == v.next && v.next < LastIno(v.nodeid))
  }

  /** Every held inode is the one its base maps to. */
  ghost predicate Named(s: State) {
    forall i, n, b | 0 <= i < |s.servers| && Holds(s.servers[i], n, b) :: b in s.mapping && s.mapping[b] == n
  }

  /** Every mapping is held by a server. */
  ghost predicate Held(s: State) {
    forall b | b in s.mapping :: exists i :: 0 <= i < |s.servers| && Holds(s.servers[i], s.mapping[b], b)
  }

  ghost predicate Agreed(s: State) {
    Named(s) && Held(s)
  }

  ghost predicate IssuedBy(s: State, i: int, n: nat) {
    0 <= i < |s.servers| && FirstIno(s.servers[i].nodeid) <= n < s.servers[i].next
  }

  ghost predicate WasIssued(s: State, n: nat) {
    exists i :: IssuedBy(s, i, n)
  }

  ghost predicate Issued(s: State) {
    && (forall a, c | 0 <= a < c < |s.issued| :: s.issued[a] != s.issued[c])
    && (forall a | 0 <= a < |s.issued| :: WasIssued(s, s.issued[a]))
  }

  ghost predicate Inv(s: State) {
    && (forall i, j | 0 <= i < j < |s.servers| :: s.servers[i].nodeid != s.servers[j].nodeid)
    && (forall i | 0 <= i < |s.servers| :: Numbered(s.servers[i]))
    && Agreed(s) && Issued(s)
  }

  lemma NumberedKept(s: State, step: Step)
    requires Inv(s) && Enabled(s, step)
    ensures forall i | 0 <= i < |s.servers| :: Numbered(Apply(s, step).servers[i])
    ensures |Apply(s, step).servers| == |s.servers|
    ensures forall i | 0 <= i < |s.servers| :: Apply(s, step).servers[i].nodeid == s.servers[i].nodeid
  {
    hide FirstIno, LastIno, Agreed, Issued;
  }

  /** Servers with the same number are the same. */
  lemma SameHolder(s: State, i: nat, j: nat, n: nat, b: nat, c: nat)
    requires Inv(s) && i < |s.servers| && j < |s.servers| && Holds(s.servers[i], n, b) && Holds(s.servers[j], n, c)
    ensures i == j && b == c
  {
    hide FirstIno, LastIno, Agreed, Issued;
    assert Numbered(s.servers[i]) && Numbered(s.servers[j]);
    if i != j { RangesApart(s.servers[i].nodeid, s.servers[j].nodeid, n); }
  }

  /** The number a server is about to use is mapped by nobody. */
  lemma FreshNumber(s: State, i: nat)
    requires Inv(s) && i < |s.servers| && s.servers[i].creation.Asked?
    ensures forall b | b in s.mapping :: s.mapping[b] != s.servers[i].creation.ino
  {
    hide FirstIno, LastIno, Issued;
    var v := s.servers[i];
    assert Numbered(v);
    forall b | b in s.mapping ensures s.mapping[b] != v.next {
      var j :| 0 <= j < |s.servers| && Holds(s.servers[j], s.mapping[b], b);
      assert Numbered(s.servers[j]);
      if j != i { RangesApart(s.servers[j].nodeid, v.nodeid, s.mapping[b]); }
    }
  }

  /** Steps within a server change neither the mapping nor what is held. */
  lemma SameAgreed(s: State, u: State, i: nat)
    requires Agreed(s) && u.mapping == s.mapping && |u.servers| == |s.servers| && i < |s.servers|
    requires forall j | 0 <= j < |s.servers| && j != i :: u.servers[j] == s.servers[j]
    requires forall n, b :: Holds(u.servers[i], n, b) <==> Holds(s.servers[i], n, b)
    ensures Agreed(u)
  {
    hide Holds;
    forall b | b in u.mapping ensures exists j :: 0 <= j < |u.servers| && Holds(u.servers[j], u.mapping[b], b) {
      var j :| 0 <= j < |s.servers| && Holds(s.servers[j], s.mapping[b], b);
      assert Holds(u.servers[j], u.mapping[b], b);
    }
    forall j, n, b | 0 <= j < |u.servers| && Holds(u.servers[j], n, b) ensures b in u.mapping && u.mapping[b] == n {
      assert Holds(s.servers[j], n, b);
    }
  }

  /** 'P' takes effect: the base becomes the server's, or stays another's. */
  lemma PutAgreed(s: State, i: nat)
    requires Inv(s) && Enabled(s, MapPut(i))
    ensures Agreed(Apply(s, MapPut(i)))
    ensures var c, u := s.servers[i].creation, Apply(s, MapPut(i));
      && (u.servers[i].creation.answer == c.ino <==> c.base !in s.mapping)
      && c.base in u.mapping && u.mapping[c.base] == u.servers[i].creation.answer
  {
    hide FirstIno, LastIno, Issued;
    var v, u := s.servers[i], Apply(s, MapPut(i));
    var base, ino := v.creation.base, v.creation.ino;
    FreshNumber(s, i);
    if base in s.mapping {
      SameAgreed(s, u, i);
    } else {
      assert Holds(u.servers[i], ino, base);
      forall j, n, b | 0 <= j < |u.servers| && Holds(u.servers[j], n, b) ensures b in u.mapping && u.mapping[b] == n {
        if (n, b) != (ino, base) { assert Holds(s.servers[j], n, b); }
      }
      forall b | b in u.mapping ensures exists j :: 0 <= j < |u.servers| && Holds(u.servers[j], u.mapping[b], b) {
        if b != base {
          var j :| 0 <= j < |s.servers| && Holds(s.servers[j], s.mapping[b], b);
          assert Holds(u.servers[j], u.mapping[b], b);
        }
      }
    }
  }

  lemma DeleteNamed(s: State, i: nat, ino: nat)
    requires Inv(s) && Enabled(s, MapDelete(i, ino))
    ensures Named(Apply(s, MapDelete(i, ino)))
  {
    hide FirstIno, LastIno, Issued, Held;
    var v, u := s.servers[i], Apply(s, MapDelete(i, ino));
    var b0 := v.releasing[ino];
    assert Holds(v, ino, b0) && Numbered(v);
    forall j, n, b | 0 <= j < |u.servers| && Holds(u.servers[j], n, b) ensures b in u.mapping && u.mapping[b] == n {
      assert Holds(s.servers[j], n, b);
      if b == b0 { SameHolder(s, i, j, ino, b0, b0); }
    }
  }

  lemma DeleteHeld(s: State, i: nat, ino: nat)
    requires Inv(s) && Enabled(s, MapDelete(i, ino))
    ensures Held(Apply(s, MapDelete(i, ino)))
  {
    hide FirstIno, LastIno, Issued, Named, Numbered;
    var v, u := s.servers[i], Apply(s, MapDelete(i, ino));
    var b0 := v.releasing[ino];
    assert Holds(v, ino, b0);
    forall b | b in u.mapping ensures exists j :: 0 <= j < |u.servers| && Holds(u.servers[j], u.mapping[b], b) {
      var j :| 0 <= j < |s.servers| && Holds(s.servers[j], s.mapping[b], b);
      if j == i && s.mapping[b] == ino { SameHolder(s, i, i, ino, b, b0); }
      assert Holds(u.servers[j], u.mapping[b], b);
    }
  }

  /** 'D' takes effect: it removes the released inode's own mapping and no other. */
  lemma DeleteAgreed(s: State, i: nat, ino: nat)
    requires Inv(s) && Enabled(s, MapDelete(i, ino))
    ensures Agreed(Apply(s, MapDelete(i, ino)))
  {
    hide Inv, Enabled, Apply, Named, Held;
    DeleteNamed(s, i, ino);
    DeleteHeld(s, i, ino);
  }

  lemma SameHolds(s: State, step: Step, n: nat, b: nat)
    requires Enabled(s, step) && (step.Create? || step.Created? || step.Release?) && Numbered(s.servers[step.i])
    ensures Holds(Apply(s, step).servers[step.i], n, b) <==> Holds(s.servers[step.i], n, b)
  {
  }

  lemma LocalAgreed(s: State, step: Step)
    requires Agreed(s) && Enabled(s, step) && (step.Create? || step.Created? || step.Release?)
    requires Numbered(s.servers[step.i])
    ensures Agreed(Apply(s, step))
  {
    hide Agreed, Holds, Numbered;
    forall n, b ensures Holds(Apply(s, step).servers[step.i], n, b) <==> Holds(s.servers[step.i], n, b) {
      SameHolds(s, step, n, b);
    }
    SameAgreed(s, Apply(s, step), step.i);
  }

  lemma AgreedKept(s: State, step: Step)
    requires Inv(s) && Enabled(s, step)
    ensures Agreed(Apply(s, step))
  {
    hide Apply, Agreed, Numbered, Issued;
    assert step.i < |s.servers| && Numbered(s.servers[step.i]);
    match step {
      case Create(_, _) => LocalAgreed(s, step);
      case MapPut(i) => PutAgreed(s, i);
      case Created(_) => LocalAgreed(s, step);
      case Release(_, _) => LocalAgreed(s, step);
      case MapDelete(i, ino) => DeleteAgreed(s, i, ino);
    }
  }

  lemma NotNext(s: State, i: nat, j: nat, n: nat)
    requires Inv(s) && IssuedBy(s, i, n) && j < |s.servers|
    ensures n != s.servers[j].next
  {
    hide FirstIno, LastIno, Agreed, Issued;
    assert Numbered(s.servers[i]) && Numbered(s.servers[j]);
    if i != j { RangesApart(s.servers[i].nodeid, s.servers[j].nodeid, n); }
  }

  lemma IssuedKept(s: State, step: Step)
    requires Inv(s) && Enabled(s, step)
    ensures Issued(Apply(s, step))
  {
    hide FirstIno, LastIno, Agreed;
    var u, v := Apply(s, step), s.servers[step.i];
    NumberedKept(s, step);
    assert Numbered(v);
    assert u.issued == s.issued || (u.issued == s.issued + [v.next] && IssuedBy(u, step.i, v.next));
    forall a | 0 <= a < |u.issued| ensures WasIssued(u, u.issued[a]) {
      if a < |s.issued| {
        assert WasIssued(s, s.issued[a]);
        var i :| IssuedBy(s, i, s.issued[a]);
        assert IssuedBy(u, i, u.issued[a]);
      }
    }
    forall a | 0 <= a < |s.issued| ensures s.issued[a] != v.next {
      assert WasIssued(s, s.issued[a]);
      var i :| IssuedBy(s, i, s.issued[a]);
      NotNext(s, i, step.i, s.issued[a]);
    }
  }

  lemma StepKeeps(s: State, step: Step)
    requires Inv(s) && Enabled(s, step)
    ensures Inv(Apply(s, step))
  {
    hide Numbered, Agreed, Issued, Apply, Enabled;
    NumberedKept(s, step);
    AgreedKept(s, step);
    IssuedKept(s, step);
  }

  lemma InitHolds(s: State)
    requires Init(s)
    ensures Inv(s)
  {
    forall i | 0 <= i < |s.servers| ensures Numbered(s.servers[i]) { LastIs(s.servers[i].nodeid); }
  }

  ghost predicate Moves(m: State, step: Step, u: State) {
    Enabled(m, step) && u == Apply(m, step)
  }

  /** The steps lead from s to u. */
  ghost predicate Run(s: State, steps: seq<Step>, u: State) {
    if steps == [] then u == s
    else
      var init, last := steps[..|steps| - 1], steps[|steps| - 1];
      exists m :: Run(s, init, m) && Moves(m, last, u)
  }

  lemma {:induction false} RunKeeps(s: State, steps: seq<Step>, u: State)
    requires Init(s) && Run(s, steps, u)
    ensures Inv(u)
  {
    hide Inv, Apply, Enabled;
    if steps == [] {
      InitHolds(s);
    } else {
      var m, last :| Run(s, steps[..|steps| - 1], m) && last == steps[|steps| - 1] && Moves(m, last, u);
      RunKeeps(s, steps[..|steps| - 1], m);
      StepKeeps(m, last);
    }
  }

  /** A live inode, or one whose release is under way, is the one its base maps to. */
  lemma MappingNamesOwner(s: State, steps: seq<Step>, u: State, i: nat, n: nat)
    requires Init(s) && Run(s, steps, u) && i < |u.servers|
    ensures var v := u.servers[i];
      && (n in v.live ==> v.live[n] in u.mapping && u.mapping[v.live[n]] == n)
      && (n in v.releasing ==> v.releasing[n] in u.mapping && u.mapping[v.releasing[n]] == n)
  {
    RunKeeps(s, steps, u);
    var v := u.servers[i];
    assert n in v.live ==> Holds(v, n, v.live[n]);
    assert n in v.releasing ==> Holds(v, n, v.releasing[n]);
  }

  /** No mapping is left behind: each names an inode that is live, being released or about to be entered. */
  lemma MappingIsHeld(s: State, steps: seq<Step>, u: State, b: nat) returns (i: nat)
    requires Init(s) && Run(s, steps, u) && b in u.mapping
    ensures i < |u.servers| && Holds(u.servers[i], u.mapping[b], b)
  {
    RunKeeps(s, steps, u);
    i :| 0 <= i < |u.servers| && Holds(u.servers[i], u.mapping[b], b);
  }

  /** No number is ever given to two inodes, and 0 to none. */
  lemma NumbersUnique(s: State, steps: seq<Step>, u: State, a: nat, c: nat)
    requires Init(s) && Run(s, steps, u) && a < c < |u.issued|
    ensures u.issued[a] != u.issued[c] && u.issued[a] > 0
  {
    RunKeeps(s, steps, u);
    assert WasIssued(u, u.issued[a]);
    var i :| IssuedBy(u, i, u.issued[a]);
  }

  // ---- the bases the clients asked for

  /** What CREATE_INODE answers its client: the number in force for the base. */
  datatype Reply = Success(ino: nat) | AlreadyCreated(ino: nat)

  ghost function Answer(m: State, i: nat): Reply
    requires Enabled(m, Created(i))
  {
    var c := m.servers[i].creation;
    if c.answer == c.ino then Success(c.ino) else AlreadyCreated(c.answer)
  }

  /** Server i was asked to create an inode for base b. */
  ghost predicate AskedFor(steps: seq<Step>, i: nat, b: nat) {
    exists k :: 0 <= k < |steps| && steps[k] == Create(i, b)
  }

  /** b is the base server i was asked for last, by the k-th step. */
  ghost predicate LastAsked(steps: seq<Step>, i: nat, b: nat, k: nat) {
    && k < |steps| && steps[k] == Create(i, b)
    && forall j | k < j < |steps| :: !(steps[j].Create? && steps[j].i == i)
  }

  ghost predicate SomeAsked(steps: seq<Step>, i: nat, b: nat) {
    exists k: nat :: LastAsked(steps, i, b, k)
  }

  /** The bases server i deals with are those it was asked for, the one under creation the last of them. */
  ghost predicate BasesOf(v: Server, steps: seq<Step>, i: nat) {
    && (forall n | n in v.live :: AskedFor(steps, i, v.live[n]))
    && (forall n | n in v.releasing :: AskedFor(steps, i, v.releasing[n]))
    && (!v.creation.Idle? ==> SomeAsked(steps, i, v.creation.base))
  }

  lemma AskedMore(steps: seq<Step>, step: Step, i: nat, b: nat)
    ensures AskedFor(steps, i, b) || step == Create(i, b) ==> AskedFor(steps + [step], i, b)
    ensures SomeAsked(steps, i, b) && !(step.Create? && step.i == i) ==> SomeAsked(steps + [step], i, b)
    ensures step == Create(i, b) ==> SomeAsked(steps + [step], i, b)
    ensures SomeAsked(steps, i, b) ==> AskedFor(steps, i, b)
  {
    var more, n := steps + [step], |steps|;
    if k :| 0 <= k < n && steps[k] == Create(i, b) { assert more[k] == Create(i, b); }
    if step == Create(i, b) { assert more[n] == Create(i, b) && LastAsked(more, i, b, n); }
    if k: nat :| LastAsked(steps, i, b, k) {
      if !(step.Create? && step.i == i) { assert LastAsked(more, i, b, k); }
    }
  }

  lemma BasesStep(s: State, step: Step, steps: seq<Step>, i: nat)
    requires Enabled(s, step) && i < |s.servers| && BasesOf(s.servers[i], steps, i)
    ensures i < |Apply(s, step).servers| && BasesOf(Apply(s, step).servers[i], steps + [step], i)
  {
    hide AskedFor, SomeAsked;
    forall b ensures AskedFor(steps, i, b) || step == Create(i, b) ==> AskedFor(steps + [step], i, b)
      ensures SomeAsked(steps, i, b) && !(step.Create? && step.i == i) ==> SomeAsked(steps + [step], i, b)
      ensures step == Create(i, b) ==> SomeAsked(steps + [step], i, b)
      ensures SomeAsked(steps, i, b) ==> AskedFor(steps, i, b)
    {
      AskedMore(steps, step, i, b);
    }
  }

  lemma InitBases(s: State, i: nat)
    requires Init(s) && i < |s.servers|
    ensures BasesOf(s.servers[i], [], i)
  {
  }

  lemma SameCount(s: State, step: Step)
    requires Enabled(s, step)
    ensures |Apply(s, step).servers| == |s.servers|
  {
  }

  /** In every run the base of each inode that is live, being released or under creation at a server is one
      that server was asked for. */
  lemma {:induction false} BasesLaw(s: State, steps: seq<Step>, u: State, i: nat)
    requires Init(s) && Run(s, steps, u) && i < |u.servers|
    ensures BasesOf(u.servers[i], steps, i)
  {
    hide BasesOf, Apply, Enabled, Init;
    if steps == [] {
      InitBases(s, i);
    } else {
      var most := steps[..|steps| - 1];
      var m, last :| Run(s, most, m) && last == steps[|steps| - 1] && Moves(m, last, u);
      SameCount(m, last);
      BasesLaw(s, most, m, i);
      BasesStep(m, last, most, i);
      assert steps == most + [last];
    }
  }

  /** At most one live inode per base inode, over all servers, and its server was asked for that base. */
  lemma OneOwner(s: State, steps: seq<Step>, u: State, i: nat, j: nat, n: nat, m: nat)
    requires Init(s) && Run(s, steps, u) && i < |u.servers| && j < |u.servers|
    requires n in u.servers[i].live && m in u.servers[j].live && u.servers[i].live[n] == u.servers[j].live[m]
    ensures i == j && n == m && AskedFor(steps, i, u.servers[i].live[n])
  {
    hide AskedFor;
    BasesLaw(s, steps, u, i);
    RunKeeps(s, steps, u);
    var b := u.servers[i].live[n];
    assert Holds(u.servers[i], n, b) && Holds(u.servers[j], m, b);
    SameHolder(u, i, j, n, b, b);
  }

  /** The k-th step was the put of server i, after it base b mapped to n, and no creation of server i began or
      ended since. */
  ghost predicate PutAt(s: State, steps: seq<Step>, i: nat, b: nat, n: nat, k: nat, p: State) {
    && k < |steps| && steps[k] == MapPut(i) && Run(s, steps[..k + 1], p)
    && b in p.mapping && p.mapping[b] == n
    && forall j | k < j < |steps| :: !(steps[j].i == i && (steps[j].Create? || steps[j].Created?))
  }

  ghost predicate SomePut(s: State, steps: seq<Step>, i: nat, b: nat, n: nat) {
    exists k: nat, p :: PutAt(s, steps, i, b, n, k, p)
  }

  lemma PutStays(s: State, steps: seq<Step>, step: Step, i: nat, b: nat, n: nat)
    requires SomePut(s, steps, i, b, n) && !(step.i == i && (step.Create? || step.Created?))
    ensures SomePut(s, steps + [step], i, b, n)
  {
    hide Run;
    var k: nat, p :| PutAt(s, steps, i, b, n, k, p);
    assert (steps + [step])[..k + 1] == steps[..k + 1];
    assert PutAt(s, steps + [step], i, b, n, k, p);
  }

  lemma PutNow(s: State, steps: seq<Step>, u: State, i: nat, b: nat, n: nat)
    requires steps != [] && steps[|steps| - 1] == MapPut(i) && Run(s, steps, u) && b in u.mapping && u.mapping[b] == n
    ensures SomePut(s, steps, i, b, n)
  {
    hide Run;
    var k := |steps| - 1;
    assert steps[..k + 1] == steps;
    assert PutAt(s, steps, i, b, n, k, u);
  }

  lemma InitIdle(s: State, i: nat)
    requires Init(s) && i < |s.servers|
    ensures s.servers[i].creation.Idle?
  {
  }

  /** The answer a server was told is what its base mapped to right after its put. */
  lemma {:induction false} ToldLaw(s: State, steps: seq<Step>, u: State, i: nat)
    requires Init(s) && Run(s, steps, u) && i < |u.servers| && u.servers[i].creation.Told?
    ensures var c := u.servers[i].creation; SomePut(s, steps, i, c.base, c.answer)
  {
    hide Init, Inv, SomePut;
    var c := u.servers[i].creation;
    if steps == [] {
      InitIdle(s, i);
    } else {
      var most := steps[..|steps| - 1];
      var m, last :| Run(s, most, m) && last == steps[|steps| - 1] && Moves(m, last, u);
      assert steps == most + [last];
      if last == MapPut(i) {
        RunKeeps(s, most, m);
        PutAgreed(m, i);
        PutNow(s, steps, u, i, c.base, c.answer);
      } else {
        ToldLaw(s, most, m, i);
        PutStays(s, most, last, i, c.base, c.answer);
      }
    }
  }

  /** A creation that ends either enters a new number for the base asked for, or reports that the base has an inode,
      with the number it mapped to right after the put; the number reported is the one in force in both cases. */
  lemma CreatedLaw(s: State, steps: seq<Step>, m: State, i: nat)
    requires Init(s) && Run(s, steps, m) && Enabled(m, Created(i))
    ensures var b, v := m.servers[i].creation.base, m.servers[i];
      var w, answer := Apply(m, Created(i)).servers[i], Answer(m, i);
      && SomeAsked(steps, i, b) && SomePut(s, steps, i, b, answer.ino) && w.creation.Idle?
      && (answer.Success? ==> answer.ino !in v.live && w.live == v.live[answer.ino := b])
      && (answer.AlreadyCreated? ==> answer.ino != v.next && w.live == v.live)
  {
    hide Init, SomeAsked, SomePut, Agreed, Issued, AskedFor;
    RunKeeps(s, steps, m);
    BasesLaw(s, steps, m, i);
    ToldLaw(s, steps, m, i);
    assert Numbered(m.servers[i]);
  }
}
