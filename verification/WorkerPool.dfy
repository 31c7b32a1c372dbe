/** The worker pool of inserver.c: one acceptor, four workers, a work queue and a pool
    of queue entries linked through one `next` field, two mutexes and a condition
    variable.  Every interleaving is a sequence of the steps below; a critical section
    is two steps, taking the mutex and doing the section's work. */
module WorkerPool {
  const NUM_THREADS: nat := 4
  const WQ_LENGTH: nat := 128
  const NULL: int := -1

  datatype Job = Job(fd: int, com: int)

  datatype WorkerPc =
    | Starting            // before locking wq_mut
    | Checking            // holds wq_mut
    | Waiting             // in pthread_cond_wait, not signalled
    | Woken               // signalled or woken spuriously, before relocking wq_mut
    | Picked              // has an entry, has not read it
    | WantsRq             // has read the entry, before locking rq_mut
    | HasRq               // holds rq_mut
    | Serving
    | Exited

  /** `ticket` is the number of the worker's last dequeue. */
  datatype Worker = Worker(pc: WorkerPc, entry: int, job: Job, ticket: nat)

  datatype AcceptorPc =
    | Accepting
    | NeedsRq             // before locking rq_mut
    | TakesRq             // holds rq_mut
    | Filling             // has a free entry
    | Answered            // entry filled, QUEUED answered, before locking wq_mut
    | Enqueuing           // holds wq_mut
    | Stopping            // before locking wq_mut
    | Broadcasting        // holds wq_mut
    | Joining
    | Done

  datatype Acceptor = Acceptor(pc: AcceptorPc, job: Job, entry: int)

  datatype Thread = NoOne | TheAcceptor | TheWorker(i: nat)

  /** A worker has dealt with the job of its dequeue. */
  datatype Service = Service(ticket: nat, job: Job)

  /** `answered`, `refused`, `dequeued` and `served` log the jobs answered QUEUED and SERVER_BUSY, those
      taken off the queue, and those dealt with. */
  datatype State = State(
    wqhead: int, wqtail: int, rqhead: int, next: seq<int>, jobs: seq<Job>, cont: bool,
    wqMut: Thread, rqMut: Thread, acc: Acceptor, workers: seq<Worker>,
    answered: seq<Job>, refused: seq<Job>, dequeued: seq<Job>, served: seq<Service>)

  datatype Step =
    | Arrive(job: Job)
    | Stop
    | AcceptorLockRq
    | TakeEntry
    | FillEntry
    | AcceptorLockWq
    | Enqueue(woken: int)
    | Broadcast
    | JoinAll
    | WorkerLockWq(i: nat)
    | Check(i: nat)
    | Spurious(i: nat)
    | ReadEntry(i: nat)
    | WorkerLockRq(i: nat)
    | Recycle(i: nat)
    | Serve(i: nat)

  ghost predicate HoldsEntry(w: Worker) { w.pc in {Picked, WantsRq, HasRq} }
  ghost predicate AcceptorHolds(a: Acceptor) { a.pc in {Filling, Answered, Enqueuing} }

  ghost predicate Enabled(s: State, step: Step) {
    match step
    case Arrive(_) => s.acc.pc == Accepting
    case Stop => s.acc.pc == Accepting
    case AcceptorLockRq => s.acc.pc == NeedsRq && s.rqMut == NoOne
    case TakeEntry => s.acc.pc == TakesRq
    case FillEntry => s.acc.pc == Filling
    case AcceptorLockWq => (s.acc.pc == Answered || s.acc.pc == Stopping) && s.wqMut == NoOne
    case Enqueue(woken) => s.acc.pc == Enqueuing &&
      // a signal wakes a waiting worker if there is one
      if exists i :: 0 <= i < |s.workers| && s.workers[i].pc == Waiting
      then 0 <= woken < |s.workers| && s.workers[woken].pc == Waiting else woken == NULL
    case Broadcast => s.acc.pc == Broadcasting
    case JoinAll => s.acc.pc == Joining && forall i | 0 <= i < |s.workers| :: s.workers[i].pc == Exited
    case WorkerLockWq(i) =>
      i < |s.workers| && (s.workers[i].pc == Starting || s.workers[i].pc == Woken) && s.wqMut == NoOne
    case Check(i) => i < |s.workers| && s.workers[i].pc == Checking
    case Spurious(i) => i < |s.workers| && s.workers[i].pc == Waiting
    case ReadEntry(i) => i < |s.workers| && s.workers[i].pc == Picked
    case WorkerLockRq(i) => i < |s.workers| && s.workers[i].pc == WantsRq && s.rqMut == NoOne
    case Recycle(i) => i < |s.workers| && s.workers[i].pc == HasRq
    case Serve(i) => i < |s.workers| && s.workers[i].pc == Serving
  }

  ghost predicate InPool(p: int) { 0 <= p < WQ_LENGTH }

  /** The shapes the steps need; part of the invariant. */
  ghost predicate Shaped(s: State) {
    |s.next| == WQ_LENGTH && |s.jobs| == WQ_LENGTH && |s.workers| == NUM_THREADS
  }

  ghost function WithWorker(s: State, i: nat, w: Worker): State
    requires i < |s.workers|
  {
    s.(workers := s.workers[i := w])
  }

  ghost function WithPc(s: State, i: nat, pc: WorkerPc): State
    requires i < |s.workers|
  {
    WithWorker(s, i, s.workers[i].(pc := pc))
  }

  /** A load and a store through p. */
  ghost function At<T>(mem: seq<T>, p: int, wild: T): T { if 0 <= p < |mem| then mem[p] else wild }
  ghost function Store<T>(mem: seq<T>, p: int, v: T): seq<T> { if 0 <= p < |mem| then mem[p := v] else mem }

  ghost function WakeAll(ws: seq<Worker>): (r: seq<Worker>)
    ensures |r| == |ws|
    ensures forall i | 0 <= i < |ws| :: r[i] == if ws[i].pc == Waiting then ws[i].(pc := Woken) else ws[i]
  {
    seq(|ws|, i requires 0 <= i < |ws| => if ws[i].pc == Waiting then ws[i].(pc := Woken) else ws[i])
  }

  ghost function Apply(s: State, step: Step): State
    requires Enabled(s, step) && Shaped(s)
  {
    match step
    case Arrive(job) => s.(acc := Acceptor(NeedsRq, job, s.acc.entry))
    case Stop => s.(acc := s.acc.(pc := Stopping))
    case AcceptorLockRq => s.(rqMut := TheAcceptor, acc := s.acc.(pc := TakesRq))
    case TakeEntry =>
      if s.rqhead == NULL then  // SERVER_BUSY
        s.(rqMut := NoOne, refused := s.refused + [s.acc.job], acc := s.acc.(pc := Accepting))
      else s.(rqMut := NoOne, rqhead := At(s.next, s.rqhead, NULL), acc := s.acc.(pc := Filling, entry := s.rqhead))
    case FillEntry =>
      var e := s.acc.entry;
      s.(jobs := Store(s.jobs, e, s.acc.job), next := Store(s.next, e, NULL),
        answered := s.answered + [s.acc.job], acc := s.acc.(pc := Answered))
    case AcceptorLockWq =>
      s.(wqMut := TheAcceptor, acc := s.acc.(pc := if s.acc.pc == Answered then Enqueuing else Broadcasting))
    case Enqueue(woken) =>
      var t := if s.wqhead != NULL
        then s.(next := Store(s.next, s.wqtail, s.acc.entry), wqtail := s.acc.entry)
        else s.(wqhead := s.acc.entry, wqtail := s.acc.entry);
      var u := t.(wqMut := NoOne, acc := s.acc.(pc := Accepting));
      if woken == NULL then u else WithPc(u, woken, Woken)
    case Broadcast => s.(cont := false, wqMut := NoOne, workers := WakeAll(s.workers), acc := s.acc.(pc := Joining))
    case JoinAll => s.(acc := s.acc.(pc := Done))
    case WorkerLockWq(i) => WithPc(s.(wqMut := TheWorker(i)), i, Checking)
    case Check(i) =>
      if s.wqhead == NULL then
        WithPc(s.(wqMut := NoOne), i, if s.cont then Waiting else Exited)
      else
        var e := s.wqhead;
        var job := At(s.jobs, e, s.acc.job);
        WithWorker(s.(wqMut := NoOne, wqhead := At(s.next, e, NULL), dequeued := s.dequeued + [job]), i,
          s.workers[i].(pc := Picked, entry := e, ticket := |s.dequeued|))
    case Spurious(i) => WithPc(s, i, Woken)
    case ReadEntry(i) =>
      var w := s.workers[i];
      WithWorker(s, i, w.(pc := WantsRq, job := At(s.jobs, w.entry, w.job)))
    case WorkerLockRq(i) => WithPc(s.(rqMut := TheWorker(i)), i, HasRq)
    case Recycle(i) =>
      var e := s.workers[i].entry;
      WithPc(s.(rqMut := NoOne, next := Store(s.next, e, s.rqhead), rqhead := e), i, Serving)
    case Serve(i) =>
      WithPc(s.(served := s.served + [Service(s.workers[i].ticket, s.workers[i].job)]), i, Starting)
  }

  /** The pool's list is built front to back, so the last entry comes first. */
  ghost predicate Init(s: State) {
    && Shaped(s) && s.wqhead == NULL && s.rqhead == WQ_LENGTH - 1 && s.cont
    && (forall p | 0 <= p < WQ_LENGTH :: s.next[p] == p - 1)
    && s.wqMut == NoOne && s.rqMut == NoOne && s.acc.pc == Accepting
    && (forall i | 0 <= i < NUM_THREADS :: s.workers[i].pc == Starting)
    && s.answered == [] && s.refused == [] && s.dequeued == [] && s.served == []
  }

  // ---- the invariant, with the work queue q and the free list f as sequences

  /** p leads through `next` to exactly the entries q. */
  ghost predicate Chain(next: seq<int>, p: int, q: seq<int>) {
    && p == (if q == [] then NULL else q[0])
    && forall i {:trigger q[i]} | 0 <= i < |q| ::
        0 <= q[i] < |next| && next[q[i]] == if i + 1 < |q| then q[i + 1] else NULL
  }

  ghost predicate Lists(s: State, q: seq<int>, f: seq<int>) {
    && |s.next| == WQ_LENGTH && Chain(s.next, s.wqhead, q) && Chain(s.next, s.rqhead, f)
    && (q != [] ==> s.wqtail == q[|q| - 1])
  }

  /** Entry e is in someone's hands. */
  ghost predicate InHand(s: State, e: int) {
    || (AcceptorHolds(s.acc) && s.acc.entry == e)
    || exists i :: 0 <= i < |s.workers| && HoldsEntry(s.workers[i]) && s.workers[i].entry == e
  }

  /** Queue, free list and hands partition the pool. */
  ghost predicate Partition(s: State, q: seq<int>, f: seq<int>) {
    && (forall i, j | 0 <= i < j < |q| :: q[i] != q[j])
    && (forall i, j | 0 <= i < j < |f| :: f[i] != f[j])
    && (forall e | e in q :: e !in f && !InHand(s, e)) && (forall e | e in f :: !InHand(s, e))
    && (forall i, j | 0 <= i < j < |s.workers| && HoldsEntry(s.workers[i]) && HoldsEntry(s.workers[j]) ::
        s.workers[i].entry != s.workers[j].entry)
    && (AcceptorHolds(s.acc) ==>
        forall i | 0 <= i < |s.workers| && HoldsEntry(s.workers[i]) :: s.workers[i].entry != s.acc.entry)
    && (forall e :: InPool(e) <==> e in q || e in f || InHand(s, e))
  }

  ghost predicate Mutexes(s: State) {
    && (s.wqMut == TheAcceptor <==> s.acc.pc == Enqueuing || s.acc.pc == Broadcasting)
    && (s.rqMut == TheAcceptor <==> s.acc.pc == TakesRq)
    && (s.wqMut.TheWorker? ==> s.wqMut.i < |s.workers|) && (s.rqMut.TheWorker? ==> s.rqMut.i < |s.workers|)
    && (forall i | 0 <= i < |s.workers| :: s.workers[i].pc == Checking <==> s.wqMut == TheWorker(i))
    && (forall i | 0 <= i < |s.workers| :: s.workers[i].pc == HasRq <==> s.rqMut == TheWorker(i))
  }

  ghost function JobsOf(jobs: seq<Job>, q: seq<int>): (r: seq<Job>)
    requires forall i | 0 <= i < |q| :: 0 <= q[i] < |jobs|
    ensures |r| == |q| && forall i | 0 <= i < |q| :: r[i] == jobs[q[i]]
  {
    seq(|q|, i requires 0 <= i < |q| => jobs[q[i]])
  }

  ghost predicate Busy(w: Worker) { w.pc in {Picked, WantsRq, HasRq, Serving} }

  /** The job the acceptor has answered but not enqueued. */
  ghost function Unqueued(s: State): seq<Job> {
    if s.acc.pc in {Answered, Enqueuing} then [s.acc.job] else []
  }

  /** Every job answered QUEUED was dequeued, is on the queue, or is the acceptor's, in this order. */
  ghost predicate Fifo(s: State, q: seq<int>) {
    && |s.jobs| == WQ_LENGTH && (forall i | 0 <= i < |q| :: 0 <= q[i] < |s.jobs|)
    && s.answered == s.dequeued + JobsOf(s.jobs, q) + Unqueued(s)
    && (s.acc.pc in {Answered, Enqueuing} ==>
      InPool(s.acc.entry) && s.jobs[s.acc.entry] == s.acc.job && At(s.next, s.acc.entry, 0) == NULL)
  }

  /** The job a busy worker is to serve. */
  ghost function JobAt(s: State, w: Worker): Job {
    if w.pc == Picked then At(s.jobs, w.entry, w.job) else w.job
  }

  /** A busy worker has the job of its own dequeue, and no two have the same dequeue. */
  ghost predicate Tickets(s: State) {
    && (forall i | 0 <= i < |s.workers| && Busy(s.workers[i]) ::
        s.workers[i].ticket < |s.dequeued| && JobAt(s, s.workers[i]) == s.dequeued[s.workers[i].ticket])
    && (forall i, j | 0 <= i < j < |s.workers| && Busy(s.workers[i]) && Busy(s.workers[j]) ::
      s.workers[i].ticket != s.workers[j].ticket)
  }

  /** Some worker is busy with dequeue t. */
  ghost predicate InService(s: State, t: nat) {
    exists i :: 0 <= i < |s.workers| && Busy(s.workers[i]) && s.workers[i].ticket == t
  }

  ghost predicate Served(s: State, t: nat) {
    exists k :: 0 <= k < |s.served| && s.served[k].ticket == t
  }

  /** Each dequeue is in service or was served, not both, and was served once with its own job. */
  ghost predicate Accounts(s: State) {
    && (forall k {:trigger s.served[k]} | 0 <= k < |s.served| ::
        s.served[k].ticket < |s.dequeued| && s.served[k].job == s.dequeued[s.served[k].ticket]
        && !InService(s, s.served[k].ticket))
    && (forall k, l | 0 <= k < l < |s.served| :: s.served[k].ticket != s.served[l].ticket)
    && (forall t: nat | t < |s.dequeued| :: InService(s, t) || Served(s, t))
  }

  /** Workers on their way to the queue after a wake-up. */
  ghost predicate Ready(w: Worker) { w.pc == Woken || w.pc == Checking }

  ghost function CountReady(ws: seq<Worker>): nat {
    if ws == [] then 0 else CountReady(ws[..|ws| - 1]) + if Ready(ws[|ws| - 1]) then 1 else 0
  }

  ghost predicate SomeWaiting(ws: seq<Worker>) {
    exists i :: 0 <= i < |ws| && ws[i].pc == Waiting
  }

  /** No wake-up is lost. */
  ghost predicate Signals(s: State, q: seq<int>) {
    SomeWaiting(s.workers) ==> |q| <= CountReady(s.workers)
  }

  ghost predicate Draining(s: State, q: seq<int>) {
    && (s.cont <==> s.acc.pc != Joining && s.acc.pc != Done)
    && (!s.cont ==> !SomeWaiting(s.workers))
    && (forall i | 0 <= i < |s.workers| && s.workers[i].pc == Exited :: !s.cont && q == [])
    && (s.acc.pc == Done ==> forall i | 0 <= i < |s.workers| :: s.workers[i].pc == Exited)
  }

  ghost predicate Inv(s: State, q: seq<int>, f: seq<int>) {
    && Shaped(s) && Lists(s, q, f) && Partition(s, q, f) && Mutexes(s) && Fifo(s, q) && Tickets(s)
    && Accounts(s) && Signals(s, q) && Draining(s, q)
  }

  // ---- the steps keep the invariant

  /** The queue after a step. */
  ghost function QueueAfter(s: State, step: Step, q: seq<int>): seq<int> {
    match step
    case Enqueue(_) => q + [s.acc.entry]
    case Check(_) => if q == [] then q else q[1..]
    case _ => q
  }

  /** The free list after a step. */
  ghost function FreeAfter(s: State, step: Step, f: seq<int>): seq<int> {
    match step
    case TakeEntry => if f == [] then f else f[1..]
    case Recycle(i) => if i < |s.workers| then [s.workers[i].entry] + f else f
    case _ => f
  }

  ghost predicate ByWorker(step: Step) {
    || step.WorkerLockWq? || step.Check? || step.Spurious? || step.ReadEntry?
    || step.WorkerLockRq? || step.Recycle? || step.Serve?
  }

  /** Worker i moved, taking or giving back a mutex as its place demands. */
  lemma WorkerMutexes(s: State, u: State, i: nat)
    requires Shaped(s) && Mutexes(s) && i < |s.workers| && |u.workers| == |s.workers|
    requires (forall j | 0 <= j < |s.workers| && j != i :: u.workers[j] == s.workers[j]) && u.acc == s.acc
    requires u.workers[i].pc == Checking <==> u.wqMut == TheWorker(i)
    requires u.workers[i].pc == HasRq <==> u.rqMut == TheWorker(i)
    requires u.wqMut == s.wqMut || (s.wqMut in {NoOne, TheWorker(i)} && u.wqMut in {NoOne, TheWorker(i)})
    requires u.rqMut == s.rqMut || (s.rqMut in {NoOne, TheWorker(i)} && u.rqMut in {NoOne, TheWorker(i)})
    ensures Mutexes(u)
  {
  }

  lemma MutexOf(s: State, i: nat)
    requires Shaped(s) && Mutexes(s) && i < |s.workers|
    ensures s.workers[i].pc == Checking <==> s.wqMut == TheWorker(i)
    ensures s.workers[i].pc == HasRq <==> s.rqMut == TheWorker(i)
  {
  }

  lemma MutexesKeptByWorker(s: State, step: Step)
    requires Shaped(s) && Mutexes(s) && Enabled(s, step) && ByWorker(step)
    ensures Mutexes(Apply(s, step))
  {
    hide Mutexes, At, Store, InPool;
    MutexOf(s, step.i);
    WorkerMutexes(s, Apply(s, step), step.i);
  }

  /** The acceptor moved; workers that sleep may have been woken. */
  lemma AcceptorMutexes(s: State, u: State)
    requires Mutexes(s) && |u.workers| == |s.workers|
    requires forall i | 0 <= i < |s.workers| ::
      u.workers[i] == s.workers[i] || (s.workers[i].pc == Waiting && u.workers[i].pc == Woken)
    requires u.wqMut == TheAcceptor <==> u.acc.pc == Enqueuing || u.acc.pc == Broadcasting
    requires u.rqMut == TheAcceptor <==> u.acc.pc == TakesRq
    requires u.wqMut == s.wqMut || (s.wqMut in {NoOne, TheAcceptor} && u.wqMut in {NoOne, TheAcceptor})
    requires u.rqMut == s.rqMut || (s.rqMut in {NoOne, TheAcceptor} && u.rqMut in {NoOne, TheAcceptor})
    ensures Mutexes(u)
  {
  }

  lemma MutexOfAcceptor(s: State)
    requires Mutexes(s)
    ensures s.wqMut == TheAcceptor <==> s.acc.pc == Enqueuing || s.acc.pc == Broadcasting
    ensures s.rqMut == TheAcceptor <==> s.acc.pc == TakesRq
  {
  }

  lemma MutexesKeptByAcceptor(s: State, step: Step)
    requires Shaped(s) && Mutexes(s) && Enabled(s, step) && !ByWorker(step)
    ensures Mutexes(Apply(s, step))
  {
    hide Mutexes, At, Store, InPool;
    MutexOfAcceptor(s);
    AcceptorMutexes(s, Apply(s, step));
  }

  lemma ShapedKept(s: State, step: Step)
    requires Shaped(s) && Enabled(s, step)
    ensures Shaped(Apply(s, step))
  {
    hide At, InPool;
  }

  lemma MutexesKept(s: State, step: Step)
    requires Shaped(s) && Mutexes(s) && Enabled(s, step)
    ensures Mutexes(Apply(s, step)) && Shaped(Apply(s, step))
  {
    hide Mutexes, Shaped, Apply, Enabled;
    ShapedKept(s, step);
    if ByWorker(step) { MutexesKeptByWorker(s, step); } else { MutexesKeptByAcceptor(s, step); }
  }

  lemma DrainHead(s: State, q: seq<int>, f: seq<int>)
    requires Lists(s, q, f)
    ensures s.wqhead == NULL <==> q == []
  {
  }

  /** A worker moved: it may go to sleep only before the broadcast, and exits only after it. */
  lemma WorkerDraining(s: State, u: State, i: nat, q: seq<int>, r: seq<int>)
    requires Draining(s, q) && u.cont == s.cont && u.acc == s.acc && i < |s.workers| && |u.workers| == |s.workers|
    requires forall j | 0 <= j < |s.workers| && j != i :: u.workers[j] == s.workers[j]
    requires u.workers[i].pc == Waiting ==> s.cont
    requires u.workers[i].pc == Exited ==> !s.cont && r == []
    requires s.workers[i].pc != Exited && (q == [] ==> r == [])
    ensures Draining(u, r)
  {
    forall j | 0 <= j < |u.workers| && u.workers[j].pc == Waiting && !u.cont ensures s.workers[j].pc == Waiting { }
    forall j | 0 <= j < |u.workers| && u.workers[j].pc == Exited && j != i ensures s.workers[j].pc == Exited { }
  }

  lemma DrainingKeptByWorker(s: State, step: Step, q: seq<int>)
    requires Shaped(s) && Draining(s, q) && Enabled(s, step) && ByWorker(step) && (s.wqhead == NULL <==> q == [])
    ensures Draining(Apply(s, step), QueueAfter(s, step, q))
  {
    hide Draining, At, Store, InPool;
    WorkerDraining(s, Apply(s, step), step.i, q, QueueAfter(s, step, q));
  }

  lemma DrainingKeptByAcceptor(s: State, step: Step, q: seq<int>)
    requires Shaped(s) && Draining(s, q) && Enabled(s, step) && !ByWorker(step)
    ensures Draining(Apply(s, step), QueueAfter(s, step, q))
  {
    hide At, Store, InPool;
  }

  lemma DrainingKept(s: State, step: Step, q: seq<int>, f: seq<int>)
    requires Shaped(s) && Lists(s, q, f) && Mutexes(s) && Draining(s, q) && Enabled(s, step)
    ensures Draining(Apply(s, step), QueueAfter(s, step, q))
  {
    hide Lists, Mutexes, Draining, Apply, Enabled, QueueAfter, Shaped;
    DrainHead(s, q, f);
    if ByWorker(step) { DrainingKeptByWorker(s, step, q); } else { DrainingKeptByAcceptor(s, step, q); }
  }

  // ---- the two linked lists

  lemma ChainTail(next: seq<int>, p: int, q: seq<int>)
    requires Chain(next, p, q) && q != []
    ensures Chain(next, At(next, p, NULL), q[1..]) && p == q[0] != NULL
  {
    forall i | 0 <= i < |q| - 1 ensures 0 <= q[1..][i] < |next|
      && next[q[1..][i]] == if i + 1 < |q| - 1 then q[1..][i + 1] else NULL
    {
      assert q[1..][i] == q[i + 1];
    }
  }

  lemma ChainFrame(next: seq<int>, e: int, v: int, p: int, q: seq<int>)
    requires Chain(next, p, q) && e !in q
    ensures Chain(Store(next, e, v), p, q)
  {
    forall i | 0 <= i < |q| ensures q[i] != e { assert q[i] in q; }
  }

  lemma ChainPush(next: seq<int>, e: int, p: int, f: seq<int>)
    requires Chain(next, p, f) && e !in f && 0 <= e < |next|
    ensures Chain(Store(next, e, p), e, [e] + f)
  {
    ChainFrame(next, e, p, p, f);
    var m, g := Store(next, e, p), [e] + f;
    forall i | 0 <= i < |g| ensures 0 <= g[i] < |m| && m[g[i]] == if i + 1 < |g| then g[i + 1] else NULL {
      if i > 0 { assert g[i] == f[i - 1]; }
    }
  }

  lemma ChainAppend(next: seq<int>, p: int, q: seq<int>, e: int)
    requires Chain(next, p, q) && e !in q && At(next, e, 0) == NULL && 0 <= e < |next|
    requires forall i, j | 0 <= i < j < |q| :: q[i] != q[j]
    ensures Chain(if q == [] then next else Store(next, q[|q| - 1], e), if q == [] then e else p, q + [e])
  {
    if q != [] {
      var m, g := Store(next, q[|q| - 1], e), q + [e];
      assert q[|q| - 1] in q;
      forall i | 0 <= i < |q| ensures 0 <= q[i] < |m| && m[q[i]] == if i + 1 < |q| then q[i + 1] else e {
        assert q[i] in q;
      }
      assert m[e] == NULL;
    }
  }

  lemma Heads(s: State, q: seq<int>, f: seq<int>)
    requires Lists(s, q, f) && Partition(s, q, f)
    ensures (s.wqhead == NULL <==> q == []) && (s.rqhead == NULL <==> f == [])
    ensures (q != [] ==> s.wqhead == q[0]) && (f != [] ==> s.rqhead == f[0])
    ensures (q != [] ==> q[|q| - 1] !in f) && (s.wqhead == NULL || InPool(s.wqhead))
    ensures forall i, j | 0 <= i < j < |q| :: q[i] != q[j]
  {
    if q != [] { assert q[|q| - 1] in q; }
  }

  lemma AcceptorsEntry(s: State, q: seq<int>, f: seq<int>)
    requires Partition(s, q, f) && AcceptorHolds(s.acc)
    ensures InPool(s.acc.entry) && s.acc.entry !in q && s.acc.entry !in f
  {
    assert InHand(s, s.acc.entry);
  }

  lemma WorkersEntry(s: State, q: seq<int>, f: seq<int>, i: nat)
    requires Partition(s, q, f) && i < |s.workers| && HoldsEntry(s.workers[i])
    ensures InPool(s.workers[i].entry) && s.workers[i].entry !in q && s.workers[i].entry !in f
  {
    assert InHand(s, s.workers[i].entry);
  }

  /** No pointer of the two lists changed. */
  lemma SameLists(s: State, u: State, q: seq<int>, f: seq<int>)
    requires Lists(s, q, f) && u.next == s.next && u.wqhead == s.wqhead && u.wqtail == s.wqtail && u.rqhead == s.rqhead
    ensures Lists(u, q, f)
  {
  }

  lemma TakeLists(s: State, q: seq<int>, f: seq<int>)
    requires Shaped(s) && Lists(s, q, f) && Enabled(s, TakeEntry) && f != []
    ensures Lists(Apply(s, TakeEntry), q, f[1..])
  {
    hide Chain;
    ChainTail(s.next, s.rqhead, f);
  }

  lemma FillLists(s: State, q: seq<int>, f: seq<int>)
    requires Shaped(s) && Lists(s, q, f) && Partition(s, q, f) && Enabled(s, FillEntry)
    ensures Lists(Apply(s, FillEntry), q, f)
  {
    hide Chain, Partition;
    AcceptorsEntry(s, q, f);
    ChainFrame(s.next, s.acc.entry, NULL, s.wqhead, q);
    ChainFrame(s.next, s.acc.entry, NULL, s.rqhead, f);
  }

  lemma HasEntry(s: State, woken: int)
    requires Enabled(s, Enqueue(woken))
    ensures AcceptorHolds(s.acc)
  {
  }

  /** The pointers after an Enqueue, whoever is woken. */
  lemma EnqueueStores(s: State, woken: int)
    requires Shaped(s) && Enabled(s, Enqueue(woken))
    ensures var u := Apply(s, Enqueue(woken));
      && u.next == (if s.wqhead != NULL then Store(s.next, s.wqtail, s.acc.entry) else s.next)
      && u.wqhead == (if s.wqhead != NULL then s.wqhead else s.acc.entry)
      && u.wqtail == s.acc.entry && u.rqhead == s.rqhead
  {
    hide Store;
  }

  lemma EnqueueLists(s: State, woken: int, q: seq<int>, f: seq<int>)
    requires Shaped(s) && Lists(s, q, f) && Partition(s, q, f) && Enabled(s, Enqueue(woken))
    requires At(s.next, s.acc.entry, 0) == NULL
    ensures Lists(Apply(s, Enqueue(woken)), q + [s.acc.entry], f)
  {
    hide Chain, Partition, At, Apply;
    Heads(s, q, f);
    HasEntry(s, woken);
    EnqueueStores(s, woken);
    AcceptorsEntry(s, q, f);
    ChainAppend(s.next, s.wqhead, q, s.acc.entry);
    if q != [] { ChainFrame(s.next, s.wqtail, s.acc.entry, s.rqhead, f); }
  }

  lemma DequeueLists(s: State, i: nat, q: seq<int>, f: seq<int>)
    requires Shaped(s) && Lists(s, q, f) && Enabled(s, Check(i)) && q != []
    ensures Lists(Apply(s, Check(i)), q[1..], f)
  {
    hide Chain;
    ChainTail(s.next, s.wqhead, q);
  }

  lemma RecycleLists(s: State, i: nat, q: seq<int>, f: seq<int>)
    requires Shaped(s) && Lists(s, q, f) && Partition(s, q, f) && Enabled(s, Recycle(i))
    ensures Lists(Apply(s, Recycle(i)), q, [s.workers[i].entry] + f)
  {
    hide Chain, Partition;
    WorkersEntry(s, q, f, i);
    ChainPush(s.next, s.workers[i].entry, s.rqhead, f);
    ChainFrame(s.next, s.workers[i].entry, s.rqhead, s.wqhead, q);
  }

  lemma ListsKeptByAcceptor(s: State, step: Step, q: seq<int>, f: seq<int>)
    requires Shaped(s) && Lists(s, q, f) && Partition(s, q, f) && Enabled(s, step) && !ByWorker(step)
    requires step.Enqueue? ==> At(s.next, s.acc.entry, 0) == NULL
    ensures Lists(Apply(s, step), QueueAfter(s, step, q), FreeAfter(s, step, f))
  {
    hide Partition, Lists, At, Store, InPool;
    Heads(s, q, f);
    if step.TakeEntry? && f != [] {
      TakeLists(s, q, f);
    } else if step.FillEntry? {
      FillLists(s, q, f);
    } else if step.Enqueue? {
      EnqueueLists(s, step.woken, q, f);
    } else {
      SameLists(s, Apply(s, step), q, f);
    }
  }

  lemma ListsKeptByWorker(s: State, step: Step, q: seq<int>, f: seq<int>)
    requires Shaped(s) && Lists(s, q, f) && Partition(s, q, f) && Enabled(s, step) && ByWorker(step)
    ensures Lists(Apply(s, step), QueueAfter(s, step, q), FreeAfter(s, step, f))
  {
    hide Partition, Lists, At, Store, InPool;
    DrainHead(s, q, f);
    if step.Check? && q != [] {
      DequeueLists(s, step.i, q, f);
    } else if step.Recycle? {
      RecycleLists(s, step.i, q, f);
    } else {
      SameLists(s, Apply(s, step), q, f);
    }
  }

  /** A wild or stale pointer is never followed: each is null exactly when its list is empty. */
  lemma ListsKept(s: State, step: Step, q: seq<int>, f: seq<int>)
    requires Shaped(s) && Lists(s, q, f) && Partition(s, q, f) && Enabled(s, step)
    requires step.Enqueue? ==> At(s.next, s.acc.entry, 0) == NULL
    ensures Lists(Apply(s, step), QueueAfter(s, step, q), FreeAfter(s, step, f))
  {
    hide Lists, Partition, Apply, Enabled, QueueAfter, FreeAfter, Shaped;
    if ByWorker(step) { ListsKeptByWorker(s, step, q, f); } else { ListsKeptByAcceptor(s, step, q, f); }
  }

  // ---- the pool

  /** The same hands hold the same entries. */
  ghost predicate SameHands(s: State, u: State) {
    && |u.workers| == |s.workers|
    && (AcceptorHolds(u.acc) <==> AcceptorHolds(s.acc)) && (AcceptorHolds(s.acc) ==> u.acc.entry == s.acc.entry)
    && forall i | 0 <= i < |s.workers| ::
        && (HoldsEntry(u.workers[i]) <==> HoldsEntry(s.workers[i]))
        && (HoldsEntry(s.workers[i]) ==> u.workers[i].entry == s.workers[i].entry)
  }

  lemma SameHandsKept(s: State, u: State, q: seq<int>, f: seq<int>)
    requires SameHands(s, u) && Partition(s, q, f)
    ensures Partition(u, q, f)
  {
    forall e ensures InHand(u, e) <==> InHand(s, e) {
      if i :| 0 <= i < |u.workers| && HoldsEntry(u.workers[i]) && u.workers[i].entry == e {
        assert HoldsEntry(s.workers[i]) && s.workers[i].entry == e;
      }
      if i :| 0 <= i < |s.workers| && HoldsEntry(s.workers[i]) && s.workers[i].entry == e {
        assert HoldsEntry(u.workers[i]) && u.workers[i].entry == e;
      }
    }
  }

  /** The acceptor takes the first free entry. */
  lemma TakeKept(s: State, q: seq<int>, f: seq<int>)
    requires Shaped(s) && Partition(s, q, f) && s.acc.pc == TakesRq && f != [] && s.rqhead == f[0] != NULL
    ensures Partition(Apply(s, TakeEntry), q, f[1..])
  {
    var u := Apply(s, TakeEntry);
    assert f == [f[0]] + f[1..] && f[0] in f;
    forall e ensures InHand(u, e) <==> InHand(s, e) || e == f[0] {
      if i :| 0 <= i < |s.workers| && HoldsEntry(s.workers[i]) && s.workers[i].entry == e {
        assert HoldsEntry(u.workers[i]);
      }
    }
    forall i | 0 <= i < |u.workers| && HoldsEntry(u.workers[i]) ensures u.workers[i].entry != f[0] {
      assert InHand(s, u.workers[i].entry);
    }
  }

  /** The acceptor puts its entry down; nobody else's hands change. */
  lemma HandsPut(s: State, u: State, q: seq<int>, f: seq<int>)
    requires Partition(s, q, f) && AcceptorHolds(s.acc) && !AcceptorHolds(u.acc) && |u.workers| == |s.workers|
    requires forall i | 0 <= i < |s.workers| ::
      && (HoldsEntry(u.workers[i]) <==> HoldsEntry(s.workers[i]))
      && (HoldsEntry(s.workers[i]) ==> u.workers[i].entry == s.workers[i].entry)
    ensures Partition(u, q + [s.acc.entry], f)
  {
    var x := s.acc.entry;
    AcceptorsEntry(s, q, f);
    forall e ensures InHand(u, e) <==> InHand(s, e) && e != x {
      if i :| 0 <= i < |s.workers| && HoldsEntry(s.workers[i]) && s.workers[i].entry == e {
        assert HoldsEntry(u.workers[i]) && u.workers[i].entry == e;
      }
      if i :| 0 <= i < |u.workers| && HoldsEntry(u.workers[i]) && u.workers[i].entry == e {
        assert HoldsEntry(s.workers[i]) && s.workers[i].entry == e;
      }
    }
  }

  /** The acceptor's entry goes to the end of the queue. */
  lemma EnqueueKept(s: State, woken: int, q: seq<int>, f: seq<int>)
    requires Shaped(s) && Partition(s, q, f) && Enabled(s, Enqueue(woken))
    ensures Partition(Apply(s, Enqueue(woken)), q + [s.acc.entry], f)
  {
    hide Partition, At, Store;
    HandsPut(s, Apply(s, Enqueue(woken)), q, f);
  }

  /** A worker takes the first entry of the queue. */
  lemma DequeueKept(s: State, i: nat, q: seq<int>, f: seq<int>)
    requires Shaped(s) && Partition(s, q, f) && Enabled(s, Check(i)) && q != [] && s.wqhead == q[0] != NULL
    ensures Partition(Apply(s, Check(i)), q[1..], f)
  {
    var u := Apply(s, Check(i));
    assert q == [q[0]] + q[1..] && q[0] in q;
    forall j | 0 <= j < |s.workers| && HoldsEntry(s.workers[j]) ensures s.workers[j].entry != q[0] {
      assert InHand(s, s.workers[j].entry);
    }
    forall e ensures InHand(u, e) <==> InHand(s, e) || e == q[0] {
      if j :| 0 <= j < |s.workers| && HoldsEntry(s.workers[j]) && s.workers[j].entry == e {
        assert HoldsEntry(u.workers[j]) && u.workers[j].entry == e;
      }
      if j :| 0 <= j < |u.workers| && HoldsEntry(u.workers[j]) && u.workers[j].entry == e {
        assert j != i ==> HoldsEntry(s.workers[j]) && s.workers[j].entry == e;
      }
      assert HoldsEntry(u.workers[i]) && u.workers[i].entry == q[0];
    }
  }

  /** A worker's entry goes back to the front of the free list. */
  lemma RecycleKept(s: State, i: nat, q: seq<int>, f: seq<int>)
    requires Shaped(s) && Partition(s, q, f) && Enabled(s, Recycle(i))
    ensures Partition(Apply(s, Recycle(i)), q, [s.workers[i].entry] + f)
  {
    var u, x := Apply(s, Recycle(i)), s.workers[i].entry;
    WorkersEntry(s, q, f, i);
    forall e ensures InHand(u, e) <==> InHand(s, e) && e != x {
      if j :| 0 <= j < |s.workers| && HoldsEntry(s.workers[j]) && s.workers[j].entry == e && e != x {
        assert HoldsEntry(u.workers[j]) && u.workers[j].entry == e;
      }
      if j :| 0 <= j < |u.workers| && HoldsEntry(u.workers[j]) && u.workers[j].entry == e {
        assert HoldsEntry(s.workers[j]) && s.workers[j].entry == e;
      }
    }
  }

  lemma PartitionKeptByAcceptor(s: State, step: Step, q: seq<int>, f: seq<int>)
    requires Shaped(s) && Lists(s, q, f) && Partition(s, q, f) && Enabled(s, step) && !ByWorker(step)
    ensures Partition(Apply(s, step), QueueAfter(s, step, q), FreeAfter(s, step, f))
  {
    hide Partition, Lists, InHand, At, Store, InPool;
    Heads(s, q, f);
    if step.TakeEntry? && f != [] {
      TakeKept(s, q, f);
    } else if step.Enqueue? {
      EnqueueKept(s, step.woken, q, f);
    } else {
      SameHandsKept(s, Apply(s, step), q, f);
    }
  }

  /** Worker i moved and still holds what it held. */
  lemma MovedHands(s: State, u: State, i: nat, q: seq<int>, f: seq<int>)
    requires Partition(s, q, f) && u.acc == s.acc && i < |s.workers| && |u.workers| == |s.workers|
    requires forall j | 0 <= j < |s.workers| && j != i :: u.workers[j] == s.workers[j]
    requires HoldsEntry(u.workers[i]) <==> HoldsEntry(s.workers[i])
    requires u.workers[i].entry == s.workers[i].entry
    ensures Partition(u, q, f)
  {
    hide Partition;
    SameHandsKept(s, u, q, f);
  }

  lemma CheckPartition(s: State, i: nat, q: seq<int>, f: seq<int>)
    requires Shaped(s) && Lists(s, q, f) && Partition(s, q, f) && Enabled(s, Check(i))
    ensures Partition(Apply(s, Check(i)), if q == [] then q else q[1..], f)
  {
    hide Partition, Lists, At;
    Heads(s, q, f);
    if q == [] { MovedHands(s, Apply(s, Check(i)), i, q, f); } else { DequeueKept(s, i, q, f); }
  }

  lemma PartitionKeptByWorker(s: State, step: Step, q: seq<int>, f: seq<int>)
    requires Shaped(s) && Lists(s, q, f) && Partition(s, q, f) && Enabled(s, step) && ByWorker(step)
    ensures Partition(Apply(s, step), QueueAfter(s, step, q), FreeAfter(s, step, f))
  {
    hide Partition, Lists, At, Store, InPool;
    if step.Check? {
      CheckPartition(s, step.i, q, f);
    } else if step.Recycle? {
      RecycleKept(s, step.i, q, f);
    } else {
      MovedHands(s, Apply(s, step), step.i, q, f);
    }
  }

  lemma PartitionKept(s: State, step: Step, q: seq<int>, f: seq<int>)
    requires Shaped(s) && Lists(s, q, f) && Partition(s, q, f) && Enabled(s, step)
    ensures Partition(Apply(s, step), QueueAfter(s, step, q), FreeAfter(s, step, f))
  {
    hide Partition, Lists, Apply, Enabled, QueueAfter, FreeAfter, Shaped;
    if ByWorker(step) { PartitionKeptByWorker(s, step, q, f); } else { PartitionKeptByAcceptor(s, step, q, f); }
  }

  // ---- wake-ups

  lemma {:induction false} CountWith(ws: seq<Worker>, i: nat, w: Worker)
    requires i < |ws|
    ensures CountReady(ws[i := w]) == CountReady(ws) - (if Ready(ws[i]) then 1 else 0) + (if Ready(w) then 1 else 0)
  {
    var n := |ws| - 1;
    if i < n {
      assert ws[i := w][..n] == ws[..n][i := w];
      CountWith(ws[..n], i, w);
    } else {
      assert ws[i := w][..n] == ws[..n];
    }
  }

  lemma {:induction false} CountSame(ws: seq<Worker>, us: seq<Worker>)
    requires |us| == |ws| && forall i | 0 <= i < |ws| :: Ready(us[i]) == Ready(ws[i])
    ensures CountReady(us) == CountReady(ws)
  {
    if ws != [] { CountSame(ws[..|ws| - 1], us[..|ws| - 1]); }
  }

  lemma SignalsKeptByWorker(s: State, step: Step, q: seq<int>, f: seq<int>)
    requires Shaped(s) && Lists(s, q, f) && Signals(s, q) && Enabled(s, step) && ByWorker(step)
    ensures Signals(Apply(s, step), QueueAfter(s, step, q))
  {
    hide CountReady;
    var u, i := Apply(s, step), step.i;
    CountWith(s.workers, i, u.workers[i]);
    forall j | 0 <= j < |u.workers| && u.workers[j].pc == Waiting && j != i ensures s.workers[j].pc == Waiting { }
  }

  lemma SignalsKeptByAcceptor(s: State, step: Step, q: seq<int>)
    requires Shaped(s) && Signals(s, q) && Enabled(s, step) && !ByWorker(step)
    ensures Signals(Apply(s, step), QueueAfter(s, step, q))
  {
    hide CountReady;
    var u := Apply(s, step);
    if step.Enqueue? {
      if step.woken != NULL { CountWith(s.workers, step.woken, u.workers[step.woken]); }
      forall j | 0 <= j < |u.workers| && u.workers[j].pc == Waiting ensures s.workers[j].pc == Waiting { }
    }
  }

  /** A worker goes to sleep only on an empty queue, each enqueue wakes one sleeper,
      and each dequeue is by a worker that was awake. */
  lemma SignalsKept(s: State, step: Step, q: seq<int>, f: seq<int>)
    requires Shaped(s) && Lists(s, q, f) && Signals(s, q) && Enabled(s, step)
    ensures Signals(Apply(s, step), QueueAfter(s, step, q))
  {
    hide CountReady, Lists, Signals, Apply, Enabled, QueueAfter, Shaped;
    if ByWorker(step) { SignalsKeptByWorker(s, step, q, f); } else { SignalsKeptByAcceptor(s, step, q); }
  }

  // ---- first in, first out

  lemma QuietFifo(s: State, u: State, q: seq<int>)
    requires Fifo(s, q) && u.jobs == s.jobs && u.answered == s.answered && u.dequeued == s.dequeued
    requires Unqueued(u) == Unqueued(s) && (u.acc.pc in {Answered, Enqueuing} <==> s.acc.pc in {Answered, Enqueuing})
    requires u.acc.pc in {Answered, Enqueuing} ==>
      u.acc.entry == s.acc.entry && At(u.next, u.acc.entry, 0) == At(s.next, s.acc.entry, 0)
    ensures Fifo(u, q)
  {
  }

  lemma JobsMore(jobs: seq<Job>, q: seq<int>, e: int)
    requires 0 <= e < |jobs| && forall i | 0 <= i < |q| :: 0 <= q[i] < |jobs|
    ensures JobsOf(jobs, q + [e]) == JobsOf(jobs, q) + [jobs[e]]
  {
  }

  lemma EnqueueFifo(s: State, woken: int, q: seq<int>)
    requires Shaped(s) && Fifo(s, q) && Enabled(s, Enqueue(woken)) && InPool(s.acc.entry)
    ensures Fifo(Apply(s, Enqueue(woken)), q + [s.acc.entry])
  {
    JobsMore(s.jobs, q, s.acc.entry);
    assert s.dequeued + JobsOf(s.jobs, q) + [s.acc.job] == s.dequeued + (JobsOf(s.jobs, q) + [s.acc.job]);
  }

  lemma JobsLess(jobs: seq<Job>, q: seq<int>)
    requires q != [] && forall i | 0 <= i < |q| :: 0 <= q[i] < |jobs|
    ensures JobsOf(jobs, q) == [jobs[q[0]]] + JobsOf(jobs, q[1..])
  {
  }

  lemma DequeueFifo(s: State, i: nat, q: seq<int>)
    requires Shaped(s) && Fifo(s, q) && Enabled(s, Check(i)) && q != [] && s.wqhead == q[0] != NULL
    ensures Fifo(Apply(s, Check(i)), q[1..])
  {
    JobsLess(s.jobs, q);
    var j, r := s.jobs[q[0]], JobsOf(s.jobs, q[1..]);
    assert s.dequeued + ([j] + r) == (s.dequeued + [j]) + r;
  }

  lemma Apart(s: State, q: seq<int>, f: seq<int>, i: nat)
    requires Partition(s, q, f) && AcceptorHolds(s.acc) && i < |s.workers| && HoldsEntry(s.workers[i])
    ensures s.workers[i].entry != s.acc.entry
  {
  }

  lemma FillFifo(s: State, q: seq<int>, f: seq<int>)
    requires Shaped(s) && Partition(s, q, f) && Fifo(s, q) && Enabled(s, FillEntry)
    ensures Fifo(Apply(s, FillEntry), q)
  {
    hide Partition;
    var u, e := Apply(s, FillEntry), s.acc.entry;
    AcceptorsEntry(s, q, f);
    forall i | 0 <= i < |q| ensures q[i] != e { assert q[i] in q; }
    assert JobsOf(u.jobs, q) == JobsOf(s.jobs, q);
  }

  lemma FifoKeptByAcceptor(s: State, step: Step, q: seq<int>, f: seq<int>)
    requires Shaped(s) && Partition(s, q, f) && Fifo(s, q) && Enabled(s, step) && !ByWorker(step)
    ensures Fifo(Apply(s, step), QueueAfter(s, step, q))
  {
    hide Partition, WakeAll, Fifo, Store, InPool;
    if step.FillEntry? {
      FillFifo(s, q, f);
    } else if step.Enqueue? {
      AcceptorsEntry(s, q, f);
      EnqueueFifo(s, step.woken, q);
    } else {
      QuietFifo(s, Apply(s, step), q);
    }
  }

  lemma RecycleFifo(s: State, i: nat, q: seq<int>, f: seq<int>)
    requires Shaped(s) && Partition(s, q, f) && Fifo(s, q) && Enabled(s, Recycle(i))
    ensures Fifo(Apply(s, Recycle(i)), q)
  {
    hide Partition, Fifo;
    if AcceptorHolds(s.acc) { Apart(s, q, f, i); }
    QuietFifo(s, Apply(s, Recycle(i)), q);
  }

  lemma FifoKeptByWorker(s: State, step: Step, q: seq<int>, f: seq<int>)
    requires Shaped(s) && Lists(s, q, f) && Partition(s, q, f) && Fifo(s, q) && Enabled(s, step) && ByWorker(step)
    ensures Fifo(Apply(s, step), QueueAfter(s, step, q))
  {
    hide Lists, Partition, Fifo, At, Store, InPool;
    Heads(s, q, f);
    if step.Check? && q != [] {
      DequeueFifo(s, step.i, q);
    } else if step.Recycle? {
      RecycleFifo(s, step.i, q, f);
    } else {
      QuietFifo(s, Apply(s, step), q);
    }
  }

  lemma FifoKept(s: State, step: Step, q: seq<int>, f: seq<int>)
    requires Shaped(s) && Lists(s, q, f) && Partition(s, q, f) && Fifo(s, q) && Enabled(s, step)
    ensures Fifo(Apply(s, step), QueueAfter(s, step, q))
  {
    hide Lists, Partition, Fifo, Apply, Enabled, QueueAfter, Shaped;
    if ByWorker(step) { FifoKeptByWorker(s, step, q, f); } else { FifoKeptByAcceptor(s, step, q, f); }
  }

  /** The acceptor moved: a busy worker stays as it is, and so does the entry it is to read. */
  lemma AcceptorTickets(s: State, u: State)
    requires Tickets(s) && u.dequeued == s.dequeued && |u.workers| == |s.workers|
    requires forall i | 0 <= i < |s.workers| :: Busy(u.workers[i]) <==> Busy(s.workers[i])
    requires forall i | 0 <= i < |s.workers| && Busy(s.workers[i]) ::
      u.workers[i] == s.workers[i] && JobAt(u, s.workers[i]) == JobAt(s, s.workers[i])
    ensures Tickets(u)
  {
  }

  lemma TicketsKeptByAcceptor(s: State, step: Step)
    requires Shaped(s) && Tickets(s) && Enabled(s, step) && !ByWorker(step)
    requires step.FillEntry? ==>
      forall i | 0 <= i < |s.workers| && HoldsEntry(s.workers[i]) :: s.workers[i].entry != s.acc.entry
    ensures Tickets(Apply(s, step))
  {
    hide Tickets, InPool;
    AcceptorTickets(s, Apply(s, step));
  }

  /** Worker i moved without a dequeue: if it is busy it was, with the same ticket and job. */
  lemma WorkerTickets(s: State, u: State, i: nat)
    requires Tickets(s) && u.dequeued == s.dequeued && u.jobs == s.jobs && i < |s.workers| && |u.workers| == |s.workers|
    requires forall j | 0 <= j < |s.workers| && j != i :: u.workers[j] == s.workers[j]
    requires Busy(u.workers[i]) ==>
      && Busy(s.workers[i]) && u.workers[i].ticket == s.workers[i].ticket
      && JobAt(u, u.workers[i]) == JobAt(s, s.workers[i])
    ensures Tickets(u)
  {
  }

  /** Worker i takes a ticket of its own. */
  lemma DequeueTickets(s: State, u: State, i: nat, job: Job)
    requires Tickets(s) && u.dequeued == s.dequeued + [job] && u.jobs == s.jobs
    requires i < |s.workers| && |u.workers| == |s.workers|
    requires forall j | 0 <= j < |s.workers| && j != i :: u.workers[j] == s.workers[j]
    requires Busy(u.workers[i]) && u.workers[i].ticket == |s.dequeued| && JobAt(u, u.workers[i]) == job
    ensures Tickets(u)
  {
  }

  lemma CheckTickets(s: State, i: nat)
    requires Shaped(s) && Tickets(s) && Enabled(s, Check(i)) && (s.wqhead == NULL || InPool(s.wqhead))
    ensures Tickets(Apply(s, Check(i)))
  {
    hide Tickets;
    var u := Apply(s, Check(i));
    if s.wqhead == NULL { WorkerTickets(s, u, i); }
    else { DequeueTickets(s, u, i, At(s.jobs, s.wqhead, s.acc.job)); }
  }

  lemma TicketsKeptByWorker(s: State, step: Step)
    requires Shaped(s) && Tickets(s) && Enabled(s, step) && ByWorker(step) && (s.wqhead == NULL || InPool(s.wqhead))
    ensures Tickets(Apply(s, step))
  {
    hide Tickets, Store, InPool;
    if step.Check? {
      CheckTickets(s, step.i);
    } else {
      WorkerTickets(s, Apply(s, step), step.i);
    }
  }

  /** An entry in a worker's hands keeps its job until it is read; a dequeue gets a new ticket. */
  lemma TicketsKept(s: State, step: Step, q: seq<int>, f: seq<int>)
    requires Shaped(s) && Lists(s, q, f) && Partition(s, q, f) && Tickets(s) && Enabled(s, step)
    ensures Tickets(Apply(s, step))
  {
    hide Lists, Partition, Tickets, Apply, Shaped;
    Heads(s, q, f);
    if ByWorker(step) {
      TicketsKeptByWorker(s, step);
    } else {
      if step.FillEntry? {
        forall i | 0 <= i < |s.workers| && HoldsEntry(s.workers[i]) ensures s.workers[i].entry != s.acc.entry {
          Apart(s, q, f, i);
        }
      }
      TicketsKeptByAcceptor(s, step);
    }
  }

  /** A step that dequeues and serves nothing. */
  lemma QuietAccounts(s: State, u: State)
    requires Accounts(s) && u.dequeued == s.dequeued && u.served == s.served && |u.workers| == |s.workers|
    requires forall i | 0 <= i < |s.workers| ::
      && (Busy(u.workers[i]) <==> Busy(s.workers[i]))
      && (Busy(s.workers[i]) ==> u.workers[i].ticket == s.workers[i].ticket)
    ensures Accounts(u)
  {
    forall t: nat ensures InService(u, t) <==> InService(s, t) {
      if i :| 0 <= i < |s.workers| && Busy(s.workers[i]) && s.workers[i].ticket == t { assert Busy(u.workers[i]); }
      if i :| 0 <= i < |u.workers| && Busy(u.workers[i]) && u.workers[i].ticket == t { assert Busy(s.workers[i]); }
    }
    forall t: nat ensures Served(u, t) <==> Served(s, t) { }
  }

  /** Worker i, not busy before, gets the next ticket. */
  lemma DequeueAccounts(s: State, u: State, i: nat, job: Job)
    requires Accounts(s) && u.dequeued == s.dequeued + [job] && u.served == s.served
    requires i < |s.workers| && !Busy(s.workers[i]) && |u.workers| == |s.workers|
    requires Busy(u.workers[i]) && u.workers[i].ticket == |s.dequeued|
    requires forall j | 0 <= j < |s.workers| && j != i :: u.workers[j] == s.workers[j]
    ensures Accounts(u)
  {
    forall t: nat ensures InService(u, t) <==> InService(s, t) || t == |s.dequeued| {
      if j :| 0 <= j < |s.workers| && Busy(s.workers[j]) && s.workers[j].ticket == t {
        assert u.workers[j] == s.workers[j];
      }
      if j :| 0 <= j < |u.workers| && Busy(u.workers[j]) && u.workers[j].ticket == t {
        assert j != i ==> u.workers[j] == s.workers[j];
      }
    }
    forall t: nat ensures Served(u, t) <==> Served(s, t) { }
  }

  /** Worker i is done with its ticket. */
  lemma ServeAccounts(s: State, u: State, i: nat)
    requires Accounts(s) && Tickets(s) && u.dequeued == s.dequeued && i < |s.workers| && s.workers[i].pc == Serving
    requires u.served == s.served + [Service(s.workers[i].ticket, s.workers[i].job)]
    requires |u.workers| == |s.workers| && !Busy(u.workers[i])
    requires forall j | 0 <= j < |s.workers| && j != i :: u.workers[j] == s.workers[j]
    ensures Accounts(u)
  {
    var w := s.workers[i];
    assert InService(s, w.ticket);
    forall t: nat ensures InService(u, t) <==> InService(s, t) && t != w.ticket {
      if j :| 0 <= j < |s.workers| && Busy(s.workers[j]) && s.workers[j].ticket == t && t != w.ticket {
        assert u.workers[j] == s.workers[j];
      }
      if j :| 0 <= j < |u.workers| && Busy(u.workers[j]) && u.workers[j].ticket == t {
        assert j != i && u.workers[j] == s.workers[j];
      }
    }
    forall t: nat ensures Served(u, t) <==> Served(s, t) || t == w.ticket {
      if k :| 0 <= k < |s.served| && s.served[k].ticket == t { assert u.served[k] == s.served[k]; }
      if k :| 0 <= k < |u.served| && u.served[k].ticket == t { assert k < |s.served| ==> u.served[k] == s.served[k]; }
      assert u.served[|s.served|].ticket == w.ticket;
    }
  }

  lemma AccountsKeptByAcceptor(s: State, step: Step)
    requires Shaped(s) && Accounts(s) && Enabled(s, step) && !ByWorker(step)
    ensures Accounts(Apply(s, step))
  {
    hide Accounts, At, Store, InPool;
    QuietAccounts(s, Apply(s, step));
  }

  /** Worker i moved and is as busy as it was. */
  lemma MovedAccounts(s: State, u: State, i: nat)
    requires Accounts(s) && u.dequeued == s.dequeued && u.served == s.served
    requires i < |s.workers| && |u.workers| == |s.workers|
    requires forall j | 0 <= j < |s.workers| && j != i :: u.workers[j] == s.workers[j]
    requires (Busy(u.workers[i]) <==> Busy(s.workers[i])) && u.workers[i].ticket == s.workers[i].ticket
    ensures Accounts(u)
  {
    hide Accounts;
    QuietAccounts(s, u);
  }

  lemma CheckAccounts(s: State, i: nat)
    requires Shaped(s) && Accounts(s) && Enabled(s, Check(i))
    ensures Accounts(Apply(s, Check(i)))
  {
    hide Accounts, At;
    var u := Apply(s, Check(i));
    if s.wqhead == NULL { MovedAccounts(s, u, i); }
    else { DequeueAccounts(s, u, i, At(s.jobs, s.wqhead, s.acc.job)); }
  }

  lemma AccountsKeptByWorker(s: State, step: Step)
    requires Shaped(s) && Tickets(s) && Accounts(s) && Enabled(s, step) && ByWorker(step)
    ensures Accounts(Apply(s, step))
  {
    hide Accounts, Tickets, At, Store, InPool;
    if step.Check? {
      CheckAccounts(s, step.i);
    } else if step.Serve? {
      ServeAccounts(s, Apply(s, step), step.i);
    } else {
      MovedAccounts(s, Apply(s, step), step.i);
    }
  }

  lemma AccountsKept(s: State, step: Step)
    requires Shaped(s) && Tickets(s) && Accounts(s) && Enabled(s, step)
    ensures Accounts(Apply(s, step))
  {
    hide Accounts, Tickets, Apply, Enabled, Shaped;
    if ByWorker(step) { AccountsKeptByWorker(s, step); } else { AccountsKeptByAcceptor(s, step); }
  }

  // ---- runs

  lemma EnqueueNeeds(s: State, step: Step, q: seq<int>)
    requires Fifo(s, q) && Enabled(s, step)
    ensures step.Enqueue? ==> At(s.next, s.acc.entry, 0) == NULL
  {
  }

  lemma StepKeeps(s: State, step: Step, q: seq<int>, f: seq<int>)
    requires Inv(s, q, f) && Enabled(s, step)
    ensures Inv(Apply(s, step), QueueAfter(s, step, q), FreeAfter(s, step, f))
  {
    hide Lists, Partition, Mutexes, Tickets, Accounts, Signals, Draining, Apply, Enabled, QueueAfter, FreeAfter;
    EnqueueNeeds(s, step, q);
    MutexesKept(s, step);
    ListsKept(s, step, q, f);
    PartitionKept(s, step, q, f);
    FifoKept(s, step, q, f);
    TicketsKept(s, step, q, f);
    AccountsKept(s, step);
    SignalsKept(s, step, q, f);
    DrainingKept(s, step, q, f);
  }

  /** Every entry is free and none is in anyone's hands. */
  lemma AllFree(s: State, f: seq<int>)
    requires Init(s) && |f| == WQ_LENGTH && forall i | 0 <= i < WQ_LENGTH :: f[i] == WQ_LENGTH - 1 - i
    ensures Partition(s, [], f)
  {
    forall e | InPool(e) ensures e in f { assert f[WQ_LENGTH - 1 - e] == e; }
    assert forall e :: !InHand(s, e);
  }

  lemma InitLists(s: State)
    requires Init(s)
    ensures var f := seq(WQ_LENGTH, i requires 0 <= i < WQ_LENGTH => WQ_LENGTH - 1 - i);
      Lists(s, [], f) && Partition(s, [], f)
  {
    var f := seq(WQ_LENGTH, i requires 0 <= i < WQ_LENGTH => WQ_LENGTH - 1 - i);
    AllFree(s, f);
  }

  lemma InitHolds(s: State)
    requires Init(s)
    ensures Inv(s, [], seq(WQ_LENGTH, i requires 0 <= i < WQ_LENGTH => WQ_LENGTH - 1 - i))
  {
    hide Lists, Partition;
    InitLists(s);
    assert JobsOf(s.jobs, []) == [];
  }

  ghost predicate Moves(m: State, step: Step, u: State) {
    Shaped(m) && Enabled(m, step) && u == Apply(m, step)
  }

  /** The steps lead from s to u. */
  ghost predicate Run(s: State, steps: seq<Step>, u: State) {
    if steps == [] then u == s
    else
      var init, last := steps[..|steps| - 1], steps[|steps| - 1];
      exists m :: Run(s, init, m) && Moves(m, last, u)
  }

  /** The invariant holds after every run. */
  lemma {:induction false} RunKeeps(s: State, steps: seq<Step>, u: State) returns (q: seq<int>, f: seq<int>)
    requires Init(s) && Run(s, steps, u)
    ensures Inv(u, q, f)
  {
    hide Inv, Apply, Enabled, Init, QueueAfter, FreeAfter;
    if steps == [] {
      InitHolds(s);
      q, f := [], seq(WQ_LENGTH, i requires 0 <= i < WQ_LENGTH => WQ_LENGTH - 1 - i);
    } else {
      var m, last :| Run(s, steps[..|steps| - 1], m) && last == steps[|steps| - 1] && Moves(m, last, u);
      q, f := RunKeeps(s, steps[..|steps| - 1], m);
      StepKeeps(m, last, q, f);
      q, f := QueueAfter(m, last, q), FreeAfter(m, last, f);
    }
  }

  /** The pointers determine the list. */
  lemma {:induction false} ChainUnique(next: seq<int>, p: int, q: seq<int>, r: seq<int>)
    requires Chain(next, p, q) && Chain(next, p, r)
    ensures q == r
    decreases |q|
  {
    if q != [] {
      assert r != [];
      ChainTail(next, p, q);
      ChainTail(next, p, r);
      ChainUnique(next, At(next, p, NULL), q[1..], r[1..]);
      assert q == [q[0]] + q[1..] && r == [r[0]] + r[1..];
    } else {
      assert r == [];
    }
  }

  lemma {:induction false} NoneReady(ws: seq<Worker>)
    requires forall j | 0 <= j < |ws| :: ws[j].pc == Waiting
    ensures CountReady(ws) == 0 && (ws != [] ==> SomeWaiting(ws))
  {
    assert ws != [] ==> ws[0].pc == Waiting;
    if ws != [] { NoneReady(ws[..|ws| - 1]); }
  }

  lemma SomeAwake(u: State, q: seq<int>, f: seq<int>) returns (i: nat)
    requires Inv(u, q, f) && q != []
    ensures i < |u.workers| && u.workers[i].pc != Waiting && u.workers[i].pc != Exited
  {
    if forall j | 0 <= j < |u.workers| :: u.workers[j].pc == Waiting {
      NoneReady(u.workers);
    }
    i :| 0 <= i < |u.workers| && u.workers[i].pc != Waiting;
  }

  /** In every reachable state, with q the work queue: while an unsignalled worker sleeps,
      there are at least as many workers on their way as jobs on the queue; and while
      there is a job on the queue, some worker is awake. */
  lemma NoLostWakeup(s: State, steps: seq<Step>, u: State, q: seq<int>)
    requires Init(s) && Run(s, steps, u) && Chain(u.next, u.wqhead, q)
    ensures SomeWaiting(u.workers) ==> |q| <= CountReady(u.workers)
    ensures q != [] ==> exists i :: 0 <= i < |u.workers| && u.workers[i].pc != Waiting && u.workers[i].pc != Exited
  {
    var r, f := RunKeeps(s, steps, u);
    ChainUnique(u.next, u.wqhead, q, r);
    if q != [] { var i := SomeAwake(u, q, f); }
  }

  lemma ListsOf(s: State, q: seq<int>, f: seq<int>)
    requires Inv(s, q, f)
    ensures Shaped(s) && Chain(s.next, s.wqhead, q) && Chain(s.next, s.rqhead, f)
  {
    hide Chain, Partition, Mutexes, Fifo, Tickets, Accounts, Signals, Draining;
  }

  // ---- what arrives

  /** The jobs of the connections that came in. */
  ghost function Arrivals(steps: seq<Step>): seq<Job> {
    if steps == [] then []
    else Arrivals(steps[..|steps| - 1]) + match steps[|steps| - 1]
      case Arrive(job) => [job]
      case _ => []
  }

  /** a is x and y shuffled together, each in its own order. */
  ghost predicate Shuffled<T>(a: seq<T>, x: seq<T>, y: seq<T>) {
    if a == [] then x == [] && y == []
    else
      var n, init := a[|a| - 1], a[..|a| - 1];
      || (x != [] && x[|x| - 1] == n && Shuffled(init, x[..|x| - 1], y))
      || (y != [] && y[|y| - 1] == n && Shuffled(init, x, y[..|y| - 1]))
  }

  lemma ShuffledMore<T>(a: seq<T>, x: seq<T>, y: seq<T>, t: T)
    requires Shuffled(a, x, y)
    ensures Shuffled(a + [t], x + [t], y) && Shuffled(a + [t], x, y + [t])
  {
    assert (a + [t])[..|a|] == a && (x + [t])[..|x|] == x && (y + [t])[..|y|] == y;
  }

  /** The job that is neither answered nor refused yet. */
  ghost function InHandJob(s: State): seq<Job> {
    if s.acc.pc in {NeedsRq, TakesRq, Filling} then [s.acc.job] else []
  }

  /** One step, as far as arriving jobs are concerned. */
  lemma ArrivalStep(s: State, step: Step)
    requires Shaped(s) && Enabled(s, step)
    ensures var u := Apply(s, step);
      match step
      case Arrive(job) => InHandJob(s) == [] && InHandJob(u) == [job] && u.answered == s.answered
        && u.refused == s.refused
      case _ =>
        || (u.answered == s.answered && u.refused == s.refused && InHandJob(u) == InHandJob(s))
        || (u.answered == s.answered + InHandJob(s) && u.refused == s.refused && InHandJob(u) == [] != InHandJob(s))
        || (u.refused == s.refused + InHandJob(s) && u.answered == s.answered && InHandJob(u) == [] != InHandJob(s))
  {
    hide At, Store, WakeAll;
  }

  lemma NothingArrived(s: State)
    requires Init(s)
    ensures InHandJob(s) == [] && Shuffled([], s.answered, s.refused)
  {
  }

  lemma OneInHand(s: State)
    ensures |InHandJob(s)| <= 1
  {
  }

  /** In every run the jobs that arrived are those answered QUEUED and those refused, each in order of arrival, and the
      one in hand. */
  lemma {:induction false} ArrivalsLaw(s: State, steps: seq<Step>, u: State) returns (done: seq<Job>)
    requires Init(s) && Run(s, steps, u)
    ensures Arrivals(steps) == done + InHandJob(u) && Shuffled(done, u.answered, u.refused)
  {
    hide Apply, Enabled, InHandJob, Shuffled, Inv;
    if steps == [] {
      done := [];
      NothingArrived(s);
    } else {
      var m, last :| Run(s, steps[..|steps| - 1], m) && last == steps[|steps| - 1] && Moves(m, last, u);
      done := ArrivalsLaw(s, steps[..|steps| - 1], m);
      var q, f := RunKeeps(s, steps[..|steps| - 1], m);
      ListsOf(m, q, f);
      ArrivalStep(m, last);
      if !last.Arrive? && !(u.answered == m.answered && u.refused == m.refused && InHandJob(u) == InHandJob(m)) {
        OneInHand(m);
        ShuffledMore(done, m.answered, m.refused, InHandJob(m)[0]);
        assert InHandJob(m) == [InHandJob(m)[0]];
        done := done + InHandJob(m);
      }
    }
  }

  lemma InvHeads(s: State, q: seq<int>, f: seq<int>)
    requires Inv(s, q, f)
    ensures Shaped(s) && (s.rqhead == NULL <==> f == [])
  {
    hide Lists, Partition, Mutexes, Fifo, Tickets, Accounts, Signals, Draining;
    Heads(s, q, f);
  }

  /** A job is refused exactly when the free list is empty; otherwise the acceptor gets an entry for it. */
  lemma RefusedExactly(s: State, steps: seq<Step>, m: State, u: State, f: seq<int>)
    requires Init(s) && Run(s, steps, m) && Moves(m, TakeEntry, u) && Chain(m.next, m.rqhead, f)
    ensures u.refused == (if f == [] then m.refused + [m.acc.job] else m.refused) && u.answered == m.answered
    ensures InHandJob(u) == (if f == [] then [] else [m.acc.job]) && (u.acc.pc == Filling <==> f != [])
  {
    hide Inv;
    var q, g := RunKeeps(s, steps, m);
    ListsOf(m, q, g);
    ChainUnique(m.next, m.rqhead, f, g);
    InvHeads(m, q, g);
  }

  // ---- what all runs keep

  /** In every reachable state, with q the work queue and f the free list: the jobs dequeued are
      the first of those answered QUEUED, in that order; each dequeue is in service by one worker
      with its own job, or was served once with its own job; each entry of the pool is in exactly
      one place; a store to wqtail reaches the last entry of the queue; and the jobs that arrived are
      those answered QUEUED and those refused, each in order, before the one in hand. */
  lemma ExactlyOnce(s: State, steps: seq<Step>, u: State, q: seq<int>, f: seq<int>)
    requires Init(s) && Run(s, steps, u) && Chain(u.next, u.wqhead, q) && Chain(u.next, u.rqhead, f)
    ensures |u.dequeued| <= |u.answered| && u.answered[..|u.dequeued|] == u.dequeued
    ensures Tickets(u) && Accounts(u)
    ensures Partition(u, q, f)
    ensures q != [] ==> u.wqtail == q[|q| - 1]
    ensures exists done :: Arrivals(steps) == done + InHandJob(u) && Shuffled(done, u.answered, u.refused)
  {
    hide Partition, Tickets, Accounts, Shuffled, InHandJob, Arrivals;
    var done := ArrivalsLaw(s, steps, u);
    var r, g := RunKeeps(s, steps, u);
    ChainUnique(u.next, u.wqhead, q, r);
    ChainUnique(u.next, u.rqhead, f, g);
  }

  lemma AllServed(u: State)
    requires Accounts(u) && forall i | 0 <= i < |u.workers| :: u.workers[i].pc == Exited
    ensures forall t: nat | t < |u.dequeued| :: Served(u, t)
  {
    forall t: nat | t < |u.dequeued| ensures Served(u, t) { assert !InService(u, t); }
  }

  /** What the invariant says of a server that is done. */
  lemma AtRest(u: State, q: seq<int>, g: seq<int>)
    requires Inv(u, q, g) && u.acc.pc == Done
    ensures (forall i | 0 <= i < |u.workers| :: u.workers[i].pc == Exited) && Chain(u.next, u.rqhead, g)
    ensures u.wqhead == NULL && u.dequeued == u.answered && Accounts(u) && forall e | InPool(e) :: e in g
    ensures forall t: nat | t < |u.dequeued| :: Served(u, t)
  {
    hide Tickets, Signals, Mutexes;
    assert u.workers[0].pc == Exited && q == [];
    assert JobsOf(u.jobs, q) == [];
    AllServed(u);
    forall e | InPool(e) ensures e in g { assert !InHand(u, e); }
  }

  /** Once the acceptor is done, every worker has exited, every job that arrived was refused or answered
      QUEUED, every one of the latter was served exactly once, and all entries are back on the free list. */
  lemma DrainedAtEnd(s: State, steps: seq<Step>, u: State, f: seq<int>)
    requires Init(s) && Run(s, steps, u) && u.acc.pc == Done && Chain(u.next, u.rqhead, f)
    ensures forall i | 0 <= i < |u.workers| :: u.workers[i].pc == Exited
    ensures u.wqhead == NULL && forall e | InPool(e) :: e in f
    ensures Shuffled(Arrivals(steps), u.answered, u.refused)
    ensures forall t: nat | t < |u.answered| :: Served(u, t)
    ensures forall k | 0 <= k < |u.served| ::
      u.served[k].ticket < |u.answered| && u.served[k].job == u.answered[u.served[k].ticket]
    ensures forall k, l | 0 <= k < l < |u.served| :: u.served[k].ticket != u.served[l].ticket
  {
    hide Inv, Shuffled, Arrivals;
    var done := ArrivalsLaw(s, steps, u);
    assert done + [] == done;
    var q, g := RunKeeps(s, steps, u);
    AtRest(u, q, g);
    ChainUnique(u.next, u.rqhead, f, g);
  }

  // ---- progress

  /** A step of the server itself: not a client's doing and not a spurious wake-up. */
  ghost predicate Internal(step: Step) { !step.Arrive? && !step.Stop? && !step.Spurious? }

  /** A worker that is awake can move, if the mutex it wants is free. */
  lemma AwakeMoves(u: State, i: nat) returns (step: Step)
    requires i < |u.workers| && u.workers[i].pc != Waiting && u.workers[i].pc != Exited
    requires u.wqMut == NoOne && u.rqMut == NoOne
    ensures Internal(step) && Enabled(u, step)
  {
    match u.workers[i].pc
    case Starting => step := WorkerLockWq(i);
    case Woken => step := WorkerLockWq(i);
    case Checking => step := Check(i);
    case Picked => step := ReadEntry(i);
    case WantsRq => step := WorkerLockRq(i);
    case HasRq => step := Recycle(i);
    case Serving => step := Serve(i);
  }

  ghost predicate AllExited(ws: seq<Worker>) {
    forall i | 0 <= i < |ws| :: ws[i].pc == Exited
  }

  lemma SomeoneLeft(u: State, q: seq<int>, f: seq<int>) returns (i: nat)
    requires Inv(u, q, f) && (u.wqhead != NULL || (u.acc.pc == Joining && !AllExited(u.workers)))
    ensures i < |u.workers| && u.workers[i].pc != Waiting && u.workers[i].pc != Exited
  {
    if u.wqhead != NULL {
      i := SomeAwake(u, q, f);
    } else {
      i :| 0 <= i < |u.workers| && u.workers[i].pc != Exited;
    }
  }

  /** With both mutexes free. */
  lemma FreeStep(u: State, q: seq<int>, f: seq<int>) returns (step: Step)
    requires Inv(u, q, f) && u.wqMut == NoOne && u.rqMut == NoOne
    requires u.wqhead != NULL || (u.acc.pc != Accepting && u.acc.pc != Done)
    ensures Internal(step) && Enabled(u, step)
  {
    var pc := u.acc.pc;
    if pc == NeedsRq {
      step := AcceptorLockRq;
    } else if pc == Filling {
      step := FillEntry;
    } else if pc == Answered || pc == Stopping {
      step := AcceptorLockWq;
    } else if pc == Joining && AllExited(u.workers) {
      step := JoinAll;
    } else {
      var i := SomeoneLeft(u, q, f);
      step := AwakeMoves(u, i);
    }
  }

  /** No reachable state is stuck: while a job is queued or the acceptor is neither waiting
      for a client nor done, some thread can move. */
  lemma Progress(s: State, steps: seq<Step>, u: State) returns (step: Step)
    requires Init(s) && Run(s, steps, u)
    requires u.wqhead != NULL || (u.acc.pc != Accepting && u.acc.pc != Done)
    ensures Internal(step) && Enabled(u, step)
  {
    var q, f := RunKeeps(s, steps, u);
    if u.wqMut.TheWorker? {
      step := Check(u.wqMut.i);
    } else if u.rqMut.TheWorker? {
      step := Recycle(u.rqMut.i);
    } else if u.wqMut == TheAcceptor {
      if u.acc.pc == Broadcasting {
        step := Broadcast;
      } else if i :| 0 <= i < |u.workers| && u.workers[i].pc == Waiting {
        step := Enqueue(i);
      } else {
        step := Enqueue(NULL);
      }
    } else if u.rqMut == TheAcceptor {
      step := TakeEntry;
    } else {
      step := FreeStep(u, q, f);
    }
  }

  // ---- a queued job is dequeued

  /** At most how many steps a worker takes before it looks at the queue again; a sleeping one is woken first. */
  ghost function Rank(w: Worker): nat {
    match w.pc
    case Exited => 0
    case Checking => 1
    case Starting => 2
    case Woken => 2
    case Waiting => 3
    case Serving => 3
    case HasRq => 4
    case WantsRq => 5
    case Picked => 6
  }

  ghost function Ranks(ws: seq<Worker>): nat {
    if ws == [] then 0 else Ranks(ws[..|ws| - 1]) + Rank(ws[|ws| - 1])
  }

  lemma {:induction false} RanksWith(ws: seq<Worker>, i: nat, w: Worker)
    requires i < |ws|
    ensures Ranks(ws[i := w]) == Ranks(ws) - Rank(ws[i]) + Rank(w)
  {
    var n := |ws| - 1;
    if i < n {
      assert ws[i := w][..n] == ws[..n][i := w];
      RanksWith(ws[..n], i, w);
    } else {
      assert ws[i := w][..n] == ws[..n];
    }
  }

  lemma RankChange(s: State, step: Step)
    requires Shaped(s) && Enabled(s, step) && ByWorker(step)
    ensures var u := Apply(s, step);
      && |u.workers| == |s.workers|
      && Ranks(u.workers) == Ranks(s.workers) - Rank(s.workers[step.i]) + Rank(u.workers[step.i])
  {
    hide Ranks;
    RanksWith(s.workers, step.i, Apply(s, step).workers[step.i]);
  }

  lemma {:induction false} RanksBound(ws: seq<Worker>)
    ensures Ranks(ws) <= 6 * |ws|
  {
    if ws != [] { RanksBound(ws[..|ws| - 1]); }
  }

  /** Waking workers adds to no rank. */
  lemma {:induction false} RanksLess(ws: seq<Worker>, xs: seq<Worker>)
    requires |ws| == |xs| && forall i | 0 <= i < |ws| :: Rank(xs[i]) <= Rank(ws[i])
    ensures Ranks(xs) <= Ranks(ws)
  {
    if ws != [] { RanksLess(ws[..|ws| - 1], xs[..|xs| - 1]); }
  }

  /** What is left to do before dequeue t: the dequeues up to it, and the workers' ways to the queue. */
  ghost function Due(s: State, t: nat): int {
    6 * (t + 1 - |s.dequeued|) + Ranks(s.workers)
  }

  ghost function WorkerSteps(steps: seq<Step>): nat {
    if steps == [] then 0
    else WorkerSteps(steps[..|steps| - 1]) + if ByWorker(steps[|steps| - 1]) then 1 else 0
  }

  /** Job t is in the queue. */
  ghost predicate Queued(s: State, q: seq<int>, t: nat) {
    |s.dequeued| <= t < |s.dequeued| + |q|
  }

  lemma MoreDequeued(s: State, step: Step, q: seq<int>, f: seq<int>)
    requires Inv(s, q, f) && Enabled(s, step)
    ensures |s.dequeued| <= |Apply(s, step).dequeued|
  {
    hide Lists, Partition, Mutexes, Fifo, Tickets, Accounts, Signals, Draining;
  }

  lemma WorkerDue(s: State, step: Step, q: seq<int>, f: seq<int>, t: nat)
    requires Inv(s, q, f) && Enabled(s, step) && ByWorker(step) && Queued(s, q, t)
    ensures var u := Apply(s, step);
      && t < |u.dequeued| + |QueueAfter(s, step, q)| && Due(u, t) < Due(s, t)
  {
    hide Ranks, Lists, Partition, Mutexes, Fifo, Tickets, Accounts, Signals, Draining;
    Heads(s, q, f);
    RankChange(s, step);
  }

  lemma AcceptorDue(s: State, step: Step, q: seq<int>, f: seq<int>, t: nat)
    requires Inv(s, q, f) && Enabled(s, step) && !ByWorker(step) && Queued(s, q, t)
    ensures var u := Apply(s, step);
      && t < |u.dequeued| + |QueueAfter(s, step, q)| && Due(u, t) <= Due(s, t)
  {
    hide Ranks, Lists, Partition, Mutexes, Fifo, Tickets, Accounts, Signals, Draining;
    RanksLess(s.workers, Apply(s, step).workers);
  }

  /** A queued job stays in its place until it is dequeued, and each step of a worker brings that nearer. */
  lemma {:induction false} QueuedUntil(s: State, q: seq<int>, f: seq<int>, steps: seq<Step>, u: State, t: nat)
    returns (r: seq<int>, g: seq<int>)
    requires Inv(s, q, f) && Run(s, steps, u) && Queued(s, q, t)
    ensures Inv(u, r, g)
    ensures t < |u.dequeued| || (Queued(u, r, t) && WorkerSteps(steps) + Due(u, t) <= Due(s, t))
  {
    hide Inv, Due, Apply, Enabled, QueueAfter, FreeAfter, ByWorker;
    r, g := q, f;
    if steps != [] {
      var m, last :| Run(s, steps[..|steps| - 1], m) && last == steps[|steps| - 1] && Moves(m, last, u);
      r, g := QueuedUntil(s, q, f, steps[..|steps| - 1], m, t);
      StepKeeps(m, last, r, g);
      MoreDequeued(m, last, r, g);
      if |m.dequeued| <= t {
        if ByWorker(last) { WorkerDue(m, last, r, g, t); } else { AcceptorDue(m, last, r, g, t); }
      }
      r, g := QueueAfter(m, last, r), FreeAfter(m, last, g);
    }
  }

  /** From any reached state on, a job of the queue q is dequeued before the workers have taken
      6 |q| + 24 steps, whatever the scheduler, the clients and spurious wake-ups do. */
  lemma DequeuedInTime(s: State, before: seq<Step>, m: State, steps: seq<Step>, u: State, q: seq<int>, t: nat)
    requires Init(s) && Run(s, before, m) && Run(m, steps, u) && Chain(m.next, m.wqhead, q) && Queued(m, q, t)
    requires WorkerSteps(steps) >= 6 * |q| + 24
    ensures t < |u.dequeued|
  {
    hide Inv, Run, Ranks;
    var r, f := RunKeeps(s, before, m);
    ListsOf(m, r, f);
    ChainUnique(m.next, m.wqhead, q, r);
    var r', g := QueuedUntil(m, q, f, steps, u, t);
    RanksBound(m.workers);
  }

  ghost predicate Own(step: Step, i: nat) { ByWorker(step) && step.i == i }

  /** The steps of worker i. */
  ghost function OwnSteps(steps: seq<Step>, i: nat): nat {
    if steps == [] then 0
    else OwnSteps(steps[..|steps| - 1], i) + if Own(steps[|steps| - 1], i) then 1 else 0
  }

  /** How many steps of its own a busy worker takes to serve its job. */
  ghost function ToServe(w: Worker): nat {
    match w.pc
    case Picked => 4
    case WantsRq => 3
    case HasRq => 2
    case Serving => 1
    case _ => 0
  }

  /** A busy worker is not touched by others. */
  lemma BusyAlone(s: State, step: Step, i: nat)
    requires Shaped(s) && Enabled(s, step) && i < |s.workers| && Busy(s.workers[i]) && !Own(step, i)
    ensures var u := Apply(s, step); |u.workers| == |s.workers| && u.workers[i] == s.workers[i]
  {
    hide At, Store;
  }

  lemma BusyMoves(s: State, step: Step, i: nat)
    requires Shaped(s) && Enabled(s, step) && i < |s.workers| && Busy(s.workers[i]) && Own(step, i)
    ensures var u, w := Apply(s, step), s.workers[i];
      && |u.workers| == |s.workers|
      && if w.pc == Serving then Served(u, w.ticket)
        else Busy(u.workers[i]) && u.workers[i].ticket == w.ticket && ToServe(u.workers[i]) == ToServe(w) - 1
  {
    hide At, Store;
    if step.Serve? { assert Apply(s, step).served[|s.served|].ticket == s.workers[i].ticket; }
  }

  lemma BusyStep(s: State, step: Step, i: nat)
    requires Shaped(s) && Enabled(s, step) && i < |s.workers| && Busy(s.workers[i])
    ensures var u, w := Apply(s, step), s.workers[i];
      && |u.workers| == |s.workers|
      && (Served(u, w.ticket)
        || (Busy(u.workers[i]) && u.workers[i].ticket == w.ticket
          && ToServe(u.workers[i]) == ToServe(w) - if Own(step, i) then 1 else 0))
  {
    hide Apply, Enabled, Served, Own, Busy, ToServe;
    if Own(step, i) { BusyMoves(s, step, i); } else { BusyAlone(s, step, i); }
  }

  lemma ServedStays(s: State, step: Step, t: nat)
    requires Shaped(s) && Enabled(s, step) && Served(s, t)
    ensures Served(Apply(s, step), t)
  {
    var k :| 0 <= k < |s.served| && s.served[k].ticket == t;
    assert Apply(s, step).served[k].ticket == t;
  }

  lemma ServeLeft(w: Worker)
    ensures ToServe(w) <= 4 && (Busy(w) <==> ToServe(w) > 0)
  {
  }

  lemma {:induction false} InvAfter(s: State, q: seq<int>, f: seq<int>, steps: seq<Step>, u: State)
    returns (r: seq<int>, g: seq<int>)
    requires Inv(s, q, f) && Run(s, steps, u)
    ensures Inv(u, r, g)
  {
    hide Inv, Apply, Enabled, QueueAfter, FreeAfter;
    r, g := q, f;
    if steps != [] {
      var m, last :| Run(s, steps[..|steps| - 1], m) && last == steps[|steps| - 1] && Moves(m, last, u);
      r, g := InvAfter(s, q, f, steps[..|steps| - 1], m);
      StepKeeps(m, last, r, g);
      r, g := QueueAfter(m, last, r), FreeAfter(m, last, g);
    }
  }

  /** A worker that has dequeued a job serves it with its fourth step at the latest. */
  lemma {:induction false} ServedInTime(s: State, q: seq<int>, f: seq<int>, steps: seq<Step>, u: State, i: nat)
    requires Inv(s, q, f) && Run(s, steps, u) && i < |s.workers| && Busy(s.workers[i])
    ensures Served(u, s.workers[i].ticket)
      || (i < |u.workers| && Busy(u.workers[i]) && u.workers[i].ticket == s.workers[i].ticket
        && OwnSteps(steps, i) + ToServe(u.workers[i]) == ToServe(s.workers[i]) <= 4)
  {
    hide Inv, Apply, Enabled, Served, Own, Busy, ToServe;
    if steps == [] {
      ServeLeft(s.workers[i]);
    } else {
      var m, last :| Run(s, steps[..|steps| - 1], m) && last == steps[|steps| - 1] && Moves(m, last, u);
      var r, g := InvAfter(s, q, f, steps[..|steps| - 1], m);
      ListsOf(m, r, g);
      ServedInTime(s, q, f, steps[..|steps| - 1], m, i);
      if Served(m, s.workers[i].ticket) {
        ServedStays(m, last, s.workers[i].ticket);
      } else {
        BusyStep(m, last, i);
        ServeLeft(m.workers[i]);
      }
    }
  }

  // ---- the shutdown ends

  /** What is left to do after the broadcast. */
  ghost function Left(s: State, q: seq<int>): nat {
    6 * |q| + Ranks(s.workers) + if s.acc.pc == Joining then 1 else 0
  }

  lemma DrainStep(s: State, step: Step, q: seq<int>, f: seq<int>)
    requires Inv(s, q, f) && !s.cont && Enabled(s, step)
    ensures !Apply(s, step).cont && Left(Apply(s, step), QueueAfter(s, step, q)) < Left(s, q)
  {
    hide Ranks, Lists, Partition, Mutexes, Fifo, Tickets, Accounts, Signals;
    Heads(s, q, f);
    if ByWorker(step) { RankChange(s, step); }
  }

  /** After the broadcast at most Left steps remain, however the threads are scheduled. */
  lemma {:induction false} ShutdownEnds(s: State, q: seq<int>, f: seq<int>, steps: seq<Step>, u: State)
    returns (r: seq<int>, g: seq<int>)
    requires Inv(s, q, f) && !s.cont && Run(s, steps, u)
    ensures Inv(u, r, g) && !u.cont && |steps| + Left(u, r) <= Left(s, q)
  {
    hide Inv, Left, Apply, Enabled;
    r, g := q, f;
    if steps != [] {
      var m, last :| Run(s, steps[..|steps| - 1], m) && last == steps[|steps| - 1] && Moves(m, last, u);
      r, g := ShutdownEnds(s, q, f, steps[..|steps| - 1], m);
      StepKeeps(m, last, r, g);
      DrainStep(m, last, r, g);
      r, g := QueueAfter(m, last, r), FreeAfter(m, last, g);
    }
  }
}
