/** inode_map under several worker threads: create_inode, acquire_inode and free_inode of incont.c
    around the requests of inserver.c.  What a thread does under imlock, or under an inode's rwlock, is
    one step; `alive` keeps an inode from being freed while a thread holds it. */
module InodeMaps {
  /** An inode as create_inode allocates it; several may have had the same number. */
  datatype Instance = Instance(ino: nat, deleted: bool, freed: bool)

  /** What a worker does with the inode of its request. */
  datatype Thread =
    | Idle
    | Holding(id: nat, served: bool, free: bool)   // holds `alive`; `free` once it has marked the inode deleted
    | Unmapping(id: nat)                           // about to enter free_inode
    | Destroying(id: nat)                          // has left imlock in free_inode, waits for `alive`

  /** `mapping` is inode_map; `replaced` logs the inodes a creation took out of it; `broken` tells that
      HASH_DELETE was applied to an inode that is not in the table. */
  datatype State = State(mapping: map<nat, nat>, inodes: seq<Instance>, threads: seq<Thread>, replaced: set<nat>,
    broken: bool)

  datatype Step =
    | Create(i: nat, ino: nat)
    | Acquire(i: nat, ino: nat)
    | Serve(i: nat, release: bool)                 // a request that leaves the inode to be released, or not
    | Drop(i: nat)
    | Unmap(i: nat)
    | Destroy(i: nat)

  datatype Reply = NoReply | Success | AlreadyCreated | InvalidIno | IsDeleted

  ghost predicate Held(s: State, id: nat) {
    exists j :: 0 <= j < |s.threads| && s.threads[j].Holding? && s.threads[j].id == id
  }

  ghost predicate Enabled(s: State, step: Step) {
    step.i < |s.threads| && var t := s.threads[step.i];
    match step
    case Create(_, _) => t.Idle?
    case Acquire(_, _) => t.Idle?
    case Serve(_, _) => t.Holding? && !t.served && t.id < |s.inodes|
    case Drop(_) => t.Holding? && t.served
    case Unmap(_) => t.Unmapping? && t.id < |s.inodes|
    case Destroy(_) => t.Destroying? && t.id < |s.inodes| && !Held(s, t.id)
  }

  ghost function WithThread(s: State, i: nat, t: Thread): State
    requires i < |s.threads|
  {
    s.(threads := s.threads[i := t])
  }

  /** Number n has an inode in the table that a creation does not replace. */
  ghost predicate Kept(s: State, n: nat) {
    n in s.mapping && s.mapping[n] < |s.inodes| && !s.inodes[s.mapping[n]].deleted
  }

  ghost function Apply(s: State, step: Step): State
    requires Enabled(s, step)
  {
    var t := s.threads[step.i];
    match step
    case Create(i, n) =>
      if Kept(s, n) then WithThread(s, i, Holding(s.mapping[n], true, false))
      else
        var u := s.(mapping := s.mapping[n := |s.inodes|], inodes := s.inodes + [Instance(n, false, false)],
          replaced := s.replaced + if n in s.mapping then {s.mapping[n]} else {});
        WithThread(u, i, Holding(|s.inodes|, true, false))
    case Acquire(i, n) =>
      if n in s.mapping then WithThread(s, i, Holding(s.mapping[n], false, false)) else s
    case Serve(i, release) =>
      if release && !s.inodes[t.id].deleted
      then WithThread(s.(inodes := s.inodes[t.id := s.inodes[t.id].(deleted := true)]), i, Holding(t.id, true, true))
      else WithThread(s, i, Holding(t.id, true, false))
    case Drop(i) => WithThread(s, i, if t.free then Unmapping(t.id) else Idle)
    case Unmap(i) =>
      var n := s.inodes[t.id].ino;
      var u := if n !in s.mapping then s
        else if s.mapping[n] == t.id then s.(mapping := s.mapping - {n})
        else s.(broken := true);
      WithThread(u, i, Destroying(t.id))
    case Destroy(i) =>
      WithThread(s.(inodes := s.inodes[t.id := s.inodes[t.id].(freed := true)]), i, Idle)
  }

  /** What the client is told. */
  ghost function Answer(s: State, step: Step): Reply
    requires Enabled(s, step)
  {
    match step
    case Create(_, n) => if Kept(s, n) then AlreadyCreated else Success
    case Acquire(_, n) => if n in s.mapping then NoReply else InvalidIno
    case Serve(i, _) => if s.inodes[s.threads[i].id].deleted then IsDeleted else Success
    case _ => NoReply
  }

  ghost predicate Init(s: State) {
    && s.mapping == map[] && s.inodes == [] && s.replaced == {} && !s.broken
    && forall i | 0 <= i < |s.threads| :: s.threads[i] == Idle
  }

  // ---- the invariant

  /** t is to free inode id. */
  ghost predicate Duty(t: Thread, id: nat) {
    !t.Idle? && t.id == id && (t.Holding? ==> t.free)
  }

  ghost predicate MapsTo(s: State, n: nat, id: nat) { n in s.mapping && s.mapping[n] == id }

  /** The table holds inodes of the right number that are not freed. */
  ghost predicate TableOk(s: State) {
    forall n | n in s.mapping ::
      s.mapping[n] < |s.inodes| && s.inodes[s.mapping[n]].ino == n && !s.inodes[s.mapping[n]].freed
  }

  /** Nobody has a freed inode, and who is to free one has it deleted. */
  ghost predicate ThreadsOk(s: State) {
    forall i | 0 <= i < |s.threads| && !s.threads[i].Idle? :: var t := s.threads[i];
      && t.id < |s.inodes| && !s.inodes[t.id].freed
      && (Duty(t, t.id) ==> s.inodes[t.id].deleted) && (t.Holding? && t.free ==> t.served)
  }

  /** At most one thread is to free an inode. */
  ghost predicate OneDuty(s: State) {
    forall i, j, id: nat | 0 <= i < j < |s.threads| :: !(Duty(s.threads[i], id) && Duty(s.threads[j], id))
  }

  /** An inode that is deleted and not freed has a thread that is to free it. */
  ghost predicate SomeDuty(s: State) {
    forall id: nat | id < |s.inodes| && s.inodes[id].deleted && !s.inodes[id].freed ::
      exists i :: 0 <= i < |s.threads| && Duty(s.threads[i], id)
  }

  /** An inode that is not deleted is the one its number maps to. */
  ghost predicate LiveOk(s: State) {
    forall id: nat | id < |s.inodes| && !s.inodes[id].deleted ::
      !s.inodes[id].freed && MapsTo(s, s.inodes[id].ino, id)
  }

  /** An inode a creation replaced is deleted and out of the table for good. */
  ghost predicate ReplacedOk(s: State) {
    forall id <- s.replaced :: id < |s.inodes| && s.inodes[id].deleted && !MapsTo(s, s.inodes[id].ino, id)
  }

  /** An inode that waits to be destroyed is out of the table. */
  ghost predicate GoneOk(s: State) {
    forall i | 0 <= i < |s.threads| && s.threads[i].Destroying? :: var id := s.threads[i].id;
      id < |s.inodes| && !MapsTo(s, s.inodes[id].ino, id)
  }

  /** Until then a deleted inode is in the table, unless a creation replaced it. */
  ghost predicate ExitsOk(s: State) {
    forall i, id: nat | 0 <= i < |s.threads| && Duty(s.threads[i], id) && !s.threads[i].Destroying? ::
      id < |s.inodes| && (id in s.replaced || MapsTo(s, s.inodes[id].ino, id))
  }

  ghost predicate Inv(s: State) {
    TableOk(s) && ThreadsOk(s) && OneDuty(s) && SomeDuty(s) && LiveOk(s) && ReplacedOk(s) && GoneOk(s)
    && ExitsOk(s)
  }

  // ---- the steps keep the invariant

  lemma TableKept(s: State, step: Step)
    requires Inv(s) && Enabled(s, step)
    ensures TableOk(Apply(s, step))
  {
    hide OneDuty, SomeDuty, LiveOk, ReplacedOk, ExitsOk;
  }

  /** Nobody else is to free the inode thread i is to free. */
  lemma NoOtherDuty(s: State, i: nat, id: nat)
    requires OneDuty(s) && i < |s.threads| && Duty(s.threads[i], id)
    ensures forall j | 0 <= j < |s.threads| && j != i :: !Duty(s.threads[j], id)
  {
    forall j | 0 <= j < |s.threads| && j != i ensures !Duty(s.threads[j], id) {
      if i < j { assert !(Duty(s.threads[i], id) && Duty(s.threads[j], id)); }
    }
  }

  /** When an inode is freed, no other thread has it. */
  lemma LastOne(s: State, i: nat)
    requires OneDuty(s) && Enabled(s, Destroy(i))
    ensures forall j | 0 <= j < |s.threads| && j != i :: s.threads[j].Idle? || s.threads[j].id != s.threads[i].id
  {
    var id := s.threads[i].id;
    NoOtherDuty(s, i, id);
    forall j | 0 <= j < |s.threads| && j != i ensures s.threads[j].Idle? || s.threads[j].id != id {
      if s.threads[j].Holding? && s.threads[j].id == id { assert Held(s, id); }
    }
  }

  lemma ThreadsKept(s: State, step: Step)
    requires Inv(s) && Enabled(s, step)
    ensures ThreadsOk(Apply(s, step))
  {
    hide OneDuty, SomeDuty, LiveOk, ReplacedOk, GoneOk, ExitsOk;
    if step.Destroy? { LastOne(s, step.i); }
  }

  lemma LiveKept(s: State, step: Step)
    requires Inv(s) && Enabled(s, step)
    ensures LiveOk(Apply(s, step))
  {
    hide OneDuty, SomeDuty, ReplacedOk, GoneOk, ExitsOk;
  }

  lemma OneDutyKept(s: State, step: Step)
    requires Inv(s) && Enabled(s, step)
    ensures OneDuty(Apply(s, step))
  {
    hide ReplacedOk, GoneOk, ExitsOk, TableOk, SomeDuty, LiveOk;
  }

  lemma SomeDutyKept(s: State, step: Step)
    requires Inv(s) && Enabled(s, step)
    ensures SomeDuty(Apply(s, step))
  {
    hide ReplacedOk, GoneOk, ExitsOk, TableOk, OneDuty, LiveOk;
    var u := Apply(s, step);
    forall id: nat | id < |u.inodes| && u.inodes[id].deleted && !u.inodes[id].freed
      ensures exists i :: 0 <= i < |u.threads| && Duty(u.threads[i], id)
    {
      if id < |s.inodes| && s.inodes[id].deleted {
        var i :| 0 <= i < |s.threads| && Duty(s.threads[i], id);
        assert Duty(u.threads[i], id);
      } else {
        assert Duty(u.threads[step.i], id);
      }
    }
  }

  lemma ReplacedKept(s: State, step: Step)
    requires Inv(s) && Enabled(s, step)
    ensures ReplacedOk(Apply(s, step))
  {
    hide SomeDuty, OneDuty, LiveOk, GoneOk, ExitsOk;
  }

  lemma GoneKept(s: State, step: Step)
    requires Inv(s) && Enabled(s, step)
    ensures GoneOk(Apply(s, step))
  {
    hide SomeDuty, OneDuty, LiveOk;
  }

  lemma ExitsKept(s: State, step: Step)
    requires Inv(s) && Enabled(s, step)
    ensures ExitsOk(Apply(s, step))
  {
    hide SomeDuty, OneDuty, ReplacedOk, GoneOk;
    if step.Unmap? { NoOtherDuty(s, step.i, s.threads[step.i].id); }
  }

  lemma StepKeeps(s: State, step: Step)
    requires Inv(s) && Enabled(s, step)
    ensures Inv(Apply(s, step))
  {
    hide Enabled, Apply, TableOk, ThreadsOk, OneDuty, SomeDuty, LiveOk, ReplacedOk, GoneOk, ExitsOk;
    TableKept(s, step);
    ThreadsKept(s, step);
    LiveKept(s, step);
    OneDutyKept(s, step);
    SomeDutyKept(s, step);
    ReplacedKept(s, step);
    GoneKept(s, step);
    ExitsKept(s, step);
  }

  // ---- runs

  ghost predicate Moves(m: State, step: Step, u: State) {
    Enabled(m, step) && u == Apply(m, step)
  }

  /** The steps lead from s to u. */
  ghost predicate Run(s: State, steps: seq<Step>, u: State) {
    if steps == [] then u == s
    else
      var init, last := steps[..|steps| - 1], steps[|steps| - 1];
      exists m :: Run(s, init, m) && Moves(m, last, u)
  }

  lemma InitHolds(s: State)
    requires Init(s)
    ensures Inv(s)
  {
  }

  lemma {:induction false} RunKeeps(s: State, steps: seq<Step>, u: State)
    requires Init(s) && Run(s, steps, u)
    ensures Inv(u)
  {
    hide Inv, Init, Apply, Enabled;
    if steps == [] {
      InitHolds(s);
    } else {
      var m, last :| Run(s, steps[..|steps| - 1], m) && last == steps[|steps| - 1] && Moves(m, last, u);
      RunKeeps(s, steps[..|steps| - 1], m);
      StepKeeps(m, last);
    }
  }

  /** No thread ever has an inode that was freed, and an inode is freed only once, when it is marked
      deleted, out of the table and no other thread has it. */
  lemma NoneFreedInUse(s: State, steps: seq<Step>, u: State, i: nat)
    requires Init(s) && Run(s, steps, u) && i < |u.threads| && !u.threads[i].Idle?
    ensures var id := u.threads[i].id; id < |u.inodes| && !u.inodes[id].freed
    ensures Enabled(u, Destroy(i)) ==>
      var inode := u.inodes[u.threads[i].id];
      && inode.deleted && !MapsTo(u, inode.ino, u.threads[i].id)
      && forall j | 0 <= j < |u.threads| && j != i :: u.threads[j].Idle? || u.threads[j].id != u.threads[i].id
  {
    hide TableOk, OneDuty, SomeDuty, LiveOk, ReplacedOk, ExitsOk, Held;
    RunKeeps(s, steps, u);
    if Enabled(u, Destroy(i)) { LastOne(u, i); }
  }

  /** None is forgotten: an inode that is marked deleted is freed or has a thread that is to free it. */
  lemma NoneForgotten(s: State, steps: seq<Step>, u: State, id: nat) returns (i: nat)
    requires Init(s) && Run(s, steps, u) && id < |u.inodes| && u.inodes[id].deleted && !u.inodes[id].freed
    ensures i < |u.threads| && Duty(u.threads[i], id)
  {
    RunKeeps(s, steps, u);
    i :| 0 <= i < |u.threads| && Duty(u.threads[i], id);
  }

  /** At most one inode of a number is not deleted, and that is the one a request for the number gets. */
  lemma OneLive(s: State, steps: seq<Step>, u: State, a: nat, c: nat)
    requires Init(s) && Run(s, steps, u) && a < |u.inodes| && c < |u.inodes|
    requires !u.inodes[a].deleted && !u.inodes[c].deleted && u.inodes[a].ino == u.inodes[c].ino
    ensures a == c && MapsTo(u, u.inodes[a].ino, a)
  {
    hide TableOk, ThreadsOk, OneDuty, SomeDuty, ReplacedOk, GoneOk, ExitsOk;
    RunKeeps(s, steps, u);
  }

  /** Number n has an inode that is not deleted. */
  ghost predicate Exists(s: State, n: nat) {
    exists id: nat :: id < |s.inodes| && s.inodes[id].ino == n && !s.inodes[id].deleted
  }

  lemma KeptIs(s: State, n: nat)
    requires Inv(s)
    ensures Kept(s, n) <==> Exists(s, n)
  {
    hide ThreadsOk, OneDuty, SomeDuty, ReplacedOk, GoneOk, ExitsOk;
    if id: nat :| id < |s.inodes| && s.inodes[id].ino == n && !s.inodes[id].deleted { assert MapsTo(s, n, id); }
  }

  /** A creation gets an inode of the number asked for that is not deleted; it is told ALREADY_CREATED exactly if there
      was one, and otherwise gets a new one. */
  lemma CreationGets(s: State, steps: seq<Step>, m: State, i: nat, n: nat)
    requires Init(s) && Run(s, steps, m) && Enabled(m, Create(i, n))
    ensures var u := Apply(m, Create(i, n)); var t := u.threads[i];
      && t.Holding? && t.id < |u.inodes| && u.inodes[t.id].ino == n && !u.inodes[t.id].deleted && MapsTo(u, n, t.id)
      && (Answer(m, Create(i, n)) == AlreadyCreated <==> Exists(m, n))
      && (Exists(m, n) ==> u.inodes == m.inodes)
      && (!Exists(m, n) ==> u.inodes == m.inodes + [u.inodes[t.id]] && t.id == |m.inodes|)
  {
    hide ThreadsOk, OneDuty, SomeDuty, LiveOk, ReplacedOk, GoneOk, ExitsOk, Exists;
    RunKeeps(s, steps, m);
    KeptIs(m, n);
  }

  /** A request gets an inode of the number it names, the one that is not deleted if there is one, and none exactly
      if it is told INVALID_INO. */
  lemma RequestGets(s: State, steps: seq<Step>, m: State, i: nat, n: nat)
    requires Init(s) && Run(s, steps, m) && Enabled(m, Acquire(i, n))
    ensures var u := Apply(m, Acquire(i, n)); var t := u.threads[i];
      && u.inodes == m.inodes && (Answer(m, Acquire(i, n)) == InvalidIno <==> t.Idle?)
      && (t.Idle? ==> !Exists(m, n))
      && (!t.Idle? ==> t.Holding? && t.id < |u.inodes| && u.inodes[t.id].ino == n)
      && (!t.Idle? && Exists(m, n) ==> !u.inodes[t.id].deleted)
  {
    hide ThreadsOk, OneDuty, SomeDuty, LiveOk, ReplacedOk, GoneOk, ExitsOk, Exists;
    RunKeeps(s, steps, m);
    KeptIs(m, n);
  }

  lemma DeletedStep(s: State, step: Step, id: nat)
    requires Enabled(s, step) && id < |s.inodes| && s.inodes[id].deleted
    ensures var u := Apply(s, step); id < |u.inodes| && u.inodes[id].deleted && u.inodes[id].ino == s.inodes[id].ino
  {
  }

  lemma ToldDeleted(u: State, id: nat)
    requires id < |u.inodes| && u.inodes[id].deleted
    ensures forall i: nat, release: bool | Enabled(u, Serve(i, release)) && u.threads[i].id == id ::
      Answer(u, Serve(i, release)) == IsDeleted
  {
  }

  /** Requests that had acquired an inode before it was marked deleted are told so: the mark stays. */
  lemma {:induction false} DeletedStays(s: State, steps: seq<Step>, u: State, id: nat)
    requires Run(s, steps, u) && id < |s.inodes| && s.inodes[id].deleted
    ensures id < |u.inodes| && u.inodes[id].deleted && u.inodes[id].ino == s.inodes[id].ino
    ensures forall i: nat, release: bool | Enabled(u, Serve(i, release)) && u.threads[i].id == id ::
      Answer(u, Serve(i, release)) == IsDeleted
  {
    hide Apply, Enabled, Answer;
    if steps != [] {
      var m, last :| Run(s, steps[..|steps| - 1], m) && last == steps[|steps| - 1] && Moves(m, last, u);
      DeletedStays(s, steps[..|steps| - 1], m, id);
      DeletedStep(m, last, id);
    }
    ToldDeleted(u, id);
  }

  lemma UnknownStep(s: State, step: Step, n: nat)
    requires Enabled(s, step) && n !in s.mapping && !(step.Create? && step.ino == n)
    ensures n !in Apply(s, step).mapping
  {
  }

  lemma ToldUnknown(u: State, n: nat)
    requires n !in u.mapping
    ensures forall i: nat | Enabled(u, Acquire(i, n)) :: Answer(u, Acquire(i, n)) == InvalidIno
  {
  }

  /** A number that is not in the table stays unknown until it is created again. */
  lemma {:induction false} UnknownUntilCreated(s: State, steps: seq<Step>, u: State, n: nat)
    requires Run(s, steps, u) && n !in s.mapping
    requires forall k | 0 <= k < |steps| :: !(steps[k].Create? && steps[k].ino == n)
    ensures n !in u.mapping && forall i: nat | Enabled(u, Acquire(i, n)) :: Answer(u, Acquire(i, n)) == InvalidIno
  {
    hide Apply, Enabled, Answer;
    if steps != [] {
      var m, last :| Run(s, steps[..|steps| - 1], m) && last == steps[|steps| - 1] && Moves(m, last, u);
      UnknownUntilCreated(s, steps[..|steps| - 1], m, n);
      UnknownStep(m, last, n);
    }
    ToldUnknown(u, n);
  }

  /** free_inode takes its inode out of the table, and the number is unknown from then on, if and only if no
      creation of the number replaced the inode and left another one; otherwise it applies
      HASH_DELETE to an inode that is not in the table. */
  lemma UnmapExact(s: State, steps: seq<Step>, u: State, i: nat)
    requires Init(s) && Run(s, steps, u) && Enabled(u, Unmap(i)) && !u.broken
    ensures var id := u.threads[i].id; var n, v := u.inodes[id].ino, Apply(u, Unmap(i));
      && (v.broken <==> id in u.replaced && n in u.mapping)
      && (v.broken <==> n in v.mapping)
  {
    hide TableOk, OneDuty, SomeDuty, LiveOk, GoneOk;
    RunKeeps(s, steps, u);
    assert Duty(u.threads[i], u.threads[i].id);
  }

  /** Once free_inode has taken an inode out of the table, requests for its number are answered INVALID_INO
      until the number is created again. */
  lemma FreedThenUnknown(s: State, before: seq<Step>, m: State, i: nat, steps: seq<Step>, u: State)
    requires Init(s) && Run(s, before, m) && !m.broken && Enabled(m, Unmap(i)) && m.threads[i].id !in m.replaced
    requires Run(Apply(m, Unmap(i)), steps, u)
    requires forall k | 0 <= k < |steps| :: !(steps[k].Create? && steps[k].ino == m.inodes[m.threads[i].id].ino)
    ensures var n := m.inodes[m.threads[i].id].ino;
      forall j: nat | Enabled(u, Acquire(j, n)) :: Answer(u, Acquire(j, n)) == InvalidIno
  {
    hide Run, Inv, Apply, Answer;
    UnmapExact(s, before, m, i);
    UnknownUntilCreated(Apply(m, Unmap(i)), steps, u, m.inodes[m.threads[i].id].ino);
  }

  lemma InitSound(s: State)
    requires Init(s)
    ensures !s.broken
  {
  }

  lemma OnlyUnmapBreaks(s: State, step: Step)
    requires Enabled(s, step)
    ensures s.replaced <= Apply(s, step).replaced
    ensures Apply(s, step).broken && !s.broken ==> step.Unmap?
  {
  }

  /** Without a creation that finds a deleted inode, every HASH_DELETE is right. */
  lemma {:induction false} SoundWithoutReplacing(s: State, steps: seq<Step>, u: State)
    requires Init(s) && Run(s, steps, u) && u.replaced == {}
    ensures !u.broken
  {
    hide Inv, Apply, Enabled;
    if steps == [] {
      InitSound(s);
    } else {
      var m, last :| Run(s, steps[..|steps| - 1], m) && last == steps[|steps| - 1] && Moves(m, last, u);
      OnlyUnmapBreaks(m, last);
      SoundWithoutReplacing(s, steps[..|steps| - 1], m);
      if last.Unmap? { UnmapExact(s, steps[..|steps| - 1], m, last.i); }
    }
  }

  lemma RunMore(s: State, steps: seq<Step>, m: State, step: Step)
    requires Run(s, steps, m) && Enabled(m, step)
    ensures Run(s, steps + [step], Apply(m, step))
  {
    hide Enabled, Apply;
    assert (steps + [step])[..|steps|] == steps;
    assert Moves(m, step, Apply(m, step));
  }

  lemma RunNone(s: State)
    ensures Run(s, [], s)
  {
  }

  /** A creation between the mark and free_inode: the table is deleted from twice. */
  lemma ReplacedInBetween(s: State) returns (steps: seq<Step>, u: State)
    requires Init(s) && |s.threads| == 2
    ensures Run(s, steps, u) && u.broken
  {
    hide Run, Inv, Held;
    var a := Apply(s, Create(0, 7));
    var b := Apply(a, Drop(0));
    var c := Apply(b, Acquire(0, 7));
    var d := Apply(c, Serve(0, true));
    var e := Apply(d, Create(1, 7));
    var f := Apply(e, Drop(0));
    u := Apply(f, Unmap(0));
    steps := [];
    RunNone(s);
    RunMore(s, steps, s, Create(0, 7));
    steps := steps + [Create(0, 7)];
    RunMore(s, steps, a, Drop(0));
    steps := steps + [Drop(0)];
    RunMore(s, steps, b, Acquire(0, 7));
    steps := steps + [Acquire(0, 7)];
    RunMore(s, steps, c, Serve(0, true));
    steps := steps + [Serve(0, true)];
    RunMore(s, steps, d, Create(1, 7));
    steps := steps + [Create(1, 7)];
    RunMore(s, steps, e, Drop(0));
    steps := steps + [Drop(0)];
    RunMore(s, steps, f, Unmap(0));
    steps := steps + [Unmap(0)];
  }
}
