/** Sequences without repetition, and what dropping or inserting an element does to them. */
module Sequences {
  ghost function SetOf<T>(s: seq<T>): set<T> {
    set x | x in s
  }

  ghost predicate NoDup<T>(s: seq<T>) {
    forall i, j :: 0 <= i < j < |s| ==> s[i] != s[j]
  }

  lemma NoDupConcat<T>(s: seq<T>, t: seq<T>)
    requires NoDup(s) && NoDup(t)
    requires SetOf(s) !! SetOf(t)
    ensures NoDup(s + t)
  {
    forall i, j | 0 <= i < j < |s + t| ensures (s + t)[i] != (s + t)[j] {
      if i < |s| <= j { assert s[i] in SetOf(s) && t[j - |s|] in SetOf(t); }
    }
  }

  ghost function Without<T>(s: seq<T>, i: nat): seq<T> {
    if i < |s| then s[..i] + s[i + 1..] else s
  }

  ghost function Inserted<T>(s: seq<T>, i: nat, x: T): seq<T> {
    if i <= |s| then s[..i] + [x] + s[i..] else s
  }

  lemma WithoutAt<T>(s: seq<T>, k: nat)
    requires k < |s|
    ensures |Without(s, k)| == |s| - 1
    ensures forall i {:trigger Without(s, k)[i]} | 0 <= i < |s| - 1 ::
      Without(s, k)[i] == if i < k then s[i] else s[i + 1]
    ensures NoDup(s) ==> NoDup(Without(s, k)) && SetOf(Without(s, k)) == SetOf(s) - {s[k]}
  {
    var w := Without(s, k);
    if NoDup(s) {
      forall x | x in SetOf(w) ensures x in SetOf(s) - {s[k]} {
        var i :| 0 <= i < |w| && w[i] == x;
        assert x == if i < k then s[i] else s[i + 1];
      }
      forall x | x in SetOf(s) - {s[k]} ensures x in SetOf(w) {
        var i :| 0 <= i < |s| && s[i] == x;
        assert x == w[if i < k then i else i - 1];
      }
    }
  }

  lemma DupFree<T>(s: seq<T>)
    requires NoDup(s)
    ensures forall i, j | 0 <= i < |s| && 0 <= j < |s| :: s[i] == s[j] ==> i == j
  {
  }

  lemma StillListed<T>(s: seq<T>, k: nat)
    requires k < |s|
    ensures forall x <- s :: x != s[k] ==> x in Without(s, k)
  {
    forall x <- s | x != s[k] ensures x in Without(s, k) {
      var i :| 0 <= i < |s| && s[i] == x;
      assert x == Without(s, k)[if i < k then i else i - 1];
    }
  }

  lemma {:induction false} CountDistinct<T>(s: seq<T>)
    requires NoDup(s)
    ensures |SetOf(s)| == |s|
  {
    if s == [] {
      assert SetOf(s) == {};
    } else {
      var n := |s| - 1;
      CountDistinct(s[..n]);
      assert SetOf(s) == SetOf(s[..n]) + {s[n]};
      assert s[n] !in SetOf(s[..n]);
    }
  }

  lemma WithoutMembers<T>(s: seq<T>, k: nat)
    requires k < |s| && NoDup(s)
    ensures NoDup(Without(s, k)) && |Without(s, k)| == |s| - 1
    ensures forall x :: x in Without(s, k) <==> x in s && x != s[k]
  {
    WithoutAt(s, k);
    forall x ensures x in Without(s, k) <==> x in s && x != s[k] {
      assert x in Without(s, k) <==> x in SetOf(Without(s, k));
    }
  }
}
