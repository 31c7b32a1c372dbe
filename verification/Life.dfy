/** What the requests on an inode add up to, from its creation on: how often it is referenced, what it holds,
    whether it is shared, and when it is marked deleted. */
module Lives {
  import opened Extents
  import opened FileSpec
  import opened Files
  import opened Requests

  /** The state that the n-th request finds. */
  ghost function Found(size: nat, rs: seq<Request>, n: nat): State
    requires n <= |rs|
  {
    Serves(Newborn(size), rs[..n])
  }

  lemma FoundNext(size: nat, rs: seq<Request>, n: nat)
    requires n < |rs|
    ensures Found(size, rs, n + 1) == Step(Found(size, rs, n), rs[n]).state
  {
    ServesNext(Newborn(size), rs, n);
  }

  lemma FoundFirst(size: nat, rs: seq<Request>)
    ensures Found(size, rs, 0) == Newborn(size)
  {
  }

  ghost predicate AllAdmissible(rs: seq<Request>) {
    forall i | 0 <= i < |rs| :: Admissible(rs[i])
  }

  lemma NewbornGood(size: nat)
    ensures Good(Newborn(size))
  {
  }

  lemma FoundGood(size: nat, rs: seq<Request>, n: nat)
    requires AllAdmissible(rs) && n <= |rs|
    ensures Good(Found(size, rs, n))
  {
    hide Admissible;
    NewbornGood(size);
    ServesGood(Newborn(size), rs[..n]);
  }

  // ---- references

  /** Opens less unrefs, cut at 0. */
  ghost function Refs(rs: seq<Request>, n: nat): int
    requires n <= |rs|
  {
    if n == 0 then 0
    else match rs[n - 1]
      case OpenReq => Refs(rs, n - 1) + 1
      case UnrefReq => if Refs(rs, n - 1) > 0 then Refs(rs, n - 1) - 1 else 0
      case _ => Refs(rs, n - 1)
  }

  lemma DeletedBefore(size: nat, rs: seq<Request>, n: nat)
    requires n < |rs| && !Found(size, rs, n + 1).deleted
    ensures !Found(size, rs, n).deleted
  {
    hide Found, Apply, Mapped, HoleIn;
    FoundNext(size, rs, n);
  }

  lemma {:induction false} RefsLaw(size: nat, rs: seq<Request>, n: nat)
    requires n <= |rs| && !Found(size, rs, n).deleted
    ensures Found(size, rs, n).refcount == Refs(rs, n) >= 0
  {
    hide Found, Apply, Mapped, HoleIn;
    if n == 0 {
      FoundFirst(size, rs);
    } else {
      DeletedBefore(size, rs, n - 1);
      RefsLaw(size, rs, n - 1);
      FoundNext(size, rs, n - 1);
    }
  }

  /** An inode with more opens than unrefs is not deleted by a request to do so, and keeps every byte. */
  lemma UsedStays(size: nat, rs: seq<Request>, n: nat)
    requires n < |rs| && rs[n].DeleteReq? && !Found(size, rs, n).deleted && Refs(rs, n) > 0
    ensures Step(Found(size, rs, n), rs[n]).reply == IsUsed && Found(size, rs, n + 1) == Found(size, rs, n)
  {
    hide Found, Apply, Mapped, HoleIn;
    RefsLaw(size, rs, n);
    FoundNext(size, rs, n);
  }

  // ---- the file

  /** The edits among the first n requests. */
  ghost function EditsOf(rs: seq<Request>, n: nat): seq<Op>
    requires n <= |rs|
  {
    if n == 0 then []
    else EditsOf(rs, n - 1) + match rs[n - 1]
      case WriteReq(host, loid, offF, offDo, len) => [Write(Addr(host, loid), offF, offDo, len)]
      case TruncateReq(newsize) => [Truncate(newsize)]
      case CloneReq(input, start, len) => [Clone(UpToMark(input), start, start + len)]
      case RemoveReq(host, loid) => if host == 0 && loid == 0 then [] else [Remove(Addr(host, loid))]
      case _ => []
  }

  /** How many of the first n requests are writes, truncations or clones. */
  ghost function Versions(rs: seq<Request>, n: nat): nat
    requires n <= |rs|
  {
    if n == 0 then 0
    else Versions(rs, n - 1) + if rs[n - 1].WriteReq? || rs[n - 1].TruncateReq? || rs[n - 1].CloneReq? then 1 else 0
  }

  lemma RunOne(f: File, ops: seq<Op>, op: Op)
    ensures Run(f, ops + [op]) == Apply(Run(f, ops), op) && ops + [] == ops
  {
    assert (ops + [op])[..|ops|] == ops;
  }

  lemma RunNone(f: File)
    ensures Run(f, []) == f
  {
  }

  /** Until it is marked deleted, the file is what its edits make of an empty one, and each but a removal counts
      as a version. */
  lemma {:induction false} FileLaw(size: nat, rs: seq<Request>, n: nat)
    requires n <= |rs| && !Found(size, rs, n).deleted
    ensures Found(size, rs, n).file == Run(Blank(size), EditsOf(rs, n))
    ensures Found(size, rs, n).version == Versions(rs, n)
  {
    hide Found, Apply, Mapped, HoleIn, Run, UpToMark;
    if n == 0 {
      FoundFirst(size, rs);
      RunNone(Blank(size));
    } else {
      DeletedBefore(size, rs, n - 1);
      FileLaw(size, rs, n - 1);
      FoundNext(size, rs, n - 1);
      forall op ensures Run(Blank(size), EditsOf(rs, n - 1) + [op]) == Apply(Run(Blank(size), EditsOf(rs, n - 1)), op) {
        RunOne(Blank(size), EditsOf(rs, n - 1), op);
      }
      assert EditsOf(rs, n - 1) + [] == EditsOf(rs, n - 1);
    }
  }

  // ---- the shared base

  /** The request reads as a clone source over a hole, so that the base object is handed out. */
  ghost predicate Shares(s: State, r: Request) {
    r.ReadReq? && r.flag && exists b :: r.start <= b < r.start + r.len && b < s.file.size && b !in s.file.bytes
  }

  ghost predicate Unshares(r: Request) {
    r.RemoveReq? && r.host == 0 && r.loid == 0
  }

  /** The i-th request shared the base, and none of those up to the n-th took that back. */
  ghost predicate SharedSince(size: nat, rs: seq<Request>, i: int, n: nat)
    requires n <= |rs|
  {
    0 <= i < n && Shares(Found(size, rs, i), rs[i]) && forall j | i < j < n :: !Unshares(rs[j])
  }

  ghost predicate SharedBy(size: nat, rs: seq<Request>, n: nat)
    requires n <= |rs|
  {
    exists i :: SharedSince(size, rs, i, n)
  }

  lemma SharesIs(s: State, r: Request)
    requires !s.deleted && !Step(s, r).state.deleted
    ensures Step(s, r).state.shared <==> Shares(s, r) || (s.shared && !Unshares(r))
  {
    hide Apply, Mapped;
  }

  lemma SharedMore(size: nat, rs: seq<Request>, n: nat)
    requires n < |rs|
    ensures SharedBy(size, rs, n + 1)
      <==> Shares(Found(size, rs, n), rs[n]) || (SharedBy(size, rs, n) && !Unshares(rs[n]))
  {
    hide Found, Shares, Unshares;
    if Shares(Found(size, rs, n), rs[n]) { assert SharedSince(size, rs, n, n + 1); }
    if i :| SharedSince(size, rs, i, n) {
      if !Unshares(rs[n]) { assert SharedSince(size, rs, i, n + 1); }
    }
    var m := n + 1;
    if i :| SharedSince(size, rs, i, m) {
      if i < n { assert SharedSince(size, rs, i, n) && !Unshares(rs[n]); }
    }
  }

  /** Until it is marked deleted, an inode is shared exactly if some read handed out its base and no removal of
      the base came since. */
  lemma {:induction false} SharedLaw(size: nat, rs: seq<Request>, n: nat)
    requires n <= |rs| && !Found(size, rs, n).deleted
    ensures Found(size, rs, n).shared <==> SharedBy(size, rs, n)
  {
    hide Found, Step, Shares, Unshares;
    if n == 0 {
      FoundFirst(size, rs);
    } else {
      DeletedBefore(size, rs, n - 1);
      SharedLaw(size, rs, n - 1);
      FoundNext(size, rs, n - 1);
      SharesIs(Found(size, rs, n - 1), rs[n - 1]);
      SharedMore(size, rs, n - 1);
    }
  }

  // ---- the mark

  /** Nothing keeps the inode alive. */
  ghost predicate Bare(s: State) {
    s.refcount == 0 && s.file.bytes == imap[] && !s.shared
  }

  /** The i-th request is one that may release the inode, and leaves nothing that keeps it alive. */
  ghost predicate Releases(size: nat, rs: seq<Request>, i: int) {
    && 0 <= i < |rs| && (rs[i].RemoveReq? || rs[i].DeleteReq? || rs[i].UnrefReq?)
    && Bare(Found(size, rs, i + 1))
  }

  lemma MarkIs(s: State, r: Request)
    requires Good(s) && !s.deleted
    ensures var u := Step(s, r).state;
      u.deleted <==> (r.RemoveReq? || r.DeleteReq? || r.UnrefReq?) && Bare(u)
  {
    hide Apply, Mapped, HoleIn;
  }

  lemma NoneReleases(size: nat, rs: seq<Request>)
    ensures !exists i :: i < 0 && Releases(size, rs, i)
  {
  }

  lemma ReleasesLast(size: nat, rs: seq<Request>, n: nat)
    requires 0 < n <= |rs| && Good(Found(size, rs, n - 1))
    ensures !Found(size, rs, n - 1).deleted ==> (Found(size, rs, n).deleted <==> Releases(size, rs, n - 1))
    ensures Found(size, rs, n - 1).deleted ==> Found(size, rs, n).deleted
  {
    hide Found, Good, Apply, Mapped, HoleIn;
    FoundNext(size, rs, n - 1);
    if !Found(size, rs, n - 1).deleted { MarkIs(Found(size, rs, n - 1), rs[n - 1]); }
  }

  /** An inode is marked deleted exactly from the first removal, deletion or unref on that leaves no reference, no
      byte and no shared base. */
  lemma {:induction false} DeletedLaw(size: nat, rs: seq<Request>, n: nat)
    requires n <= |rs| && AllAdmissible(rs)
    ensures Found(size, rs, n).deleted <==> exists i :: i < n && Releases(size, rs, i)
  {
    hide Found, Step, Releases, Good, Admissible;
    if n == 0 {
      FoundFirst(size, rs);
      NoneReleases(size, rs);
    } else {
      DeletedLaw(size, rs, n - 1);
      FoundNext(size, rs, n - 1);
      FoundGood(size, rs, n - 1);
      ReleasesLast(size, rs, n);
    }
  }

  // ---- on the heap

  lemma FoundIs(size: nat, rs: seq<Request>, answers: seq<Reply>)
    requires Replied(Newborn(size), rs, answers)
    ensures forall i | 0 <= i < |answers| :: Answered(Found(size, rs, i), rs[i], answers[i])
    ensures Found(size, rs, |rs|) == Serves(Newborn(size), rs)
  {
    hide Answered, Serves;
    assert rs[..|rs|] == rs;
  }

  /** A file's whole life, told by its requests alone. */
  method LifeOf(ino: nat, bino: nat, size: nat, rs: seq<Request>)
    returns (inode: Inode, n: nat, answers: seq<Reply>, ghost vs: seq<seq<Piece>>)
    requires AllAdmissible(rs)
    ensures n <= |rs| && |answers| == n
    ensures forall i | 0 <= i < n :: Answered(Found(size, rs, i), rs[i], answers[i])
    ensures n == |rs| ==> (inode.deleted <==> exists i :: i < n && Releases(size, rs, i))
    ensures n == |rs| && !inode.deleted ==>
      && FileOf(inode) == Run(Blank(size), EditsOf(rs, n)) && inode.version == Versions(rs, n)
      && inode.refcount == Refs(rs, n) && (inode.shared <==> SharedBy(size, rs, n))
  {
    hide Found, Releases, Run, Admissible, FileOf, Served, History, Answered;
    inode, n, answers, vs := Live(ino, bino, size, rs);
    FoundIs(size, rs, answers);
    if n == |rs| {
      assert rs[..n] == rs;
      DeletedLaw(size, rs, n);
      if !inode.deleted {
        FileLaw(size, rs, n);
        RefsLaw(size, rs, n);
        SharedLaw(size, rs, n);
      }
    }
  }
}
