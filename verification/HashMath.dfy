/** The arithmetic of uthash.h's buckets: masks, shifts, and how a doubling spreads
    the items. */
module HashMath {
  function Pow2(k: nat): (p: nat)
    ensures p > 0
  {
    if k == 0 then 1 else 2 * Pow2(k - 1)
  }

  /** h & m. */
  function And(h: nat, m: nat): nat
    decreases h
  {
    if h == 0 || m == 0 then 0 else 2 * And(h / 2, m / 2) + (h % 2) * (m % 2)
  }

  /** h >> k. */
  function Shr(h: nat, k: nat): nat {
    if k == 0 then h else Shr(h / 2, k - 1)
  }

  /** The bucket of hash value h among n: the remainder. */
  ghost function Home(h: nat, n: nat): (i: nat)
    requires n > 0
    ensures i < n
  {
    h % n
  }

  lemma AndStep(h: nat, m: nat)
    ensures And(h, m) == if m == 0 then 0 else 2 * And(h / 2, m / 2) + (h % 2) * (m % 2)
  {
  }

  lemma MaskHalves(p: nat)
    requires p > 0
    ensures (2 * p - 1) / 2 == p - 1 && (2 * p - 1) % 2 == 1
  {
  }

  lemma MulStep(p: nat, a: nat, b: nat)
    requires a < b
    ensures p * a + p <= p * b
  {
    assert p * (a + 1) <= p * b;
  }

  lemma ModUnique(h: nat, p: nat, q: nat, r: nat)
    requires p > 0 && h == p * q + r && r < p
    ensures h % p == r && h / p == q
  {
    var d, m := h / p, h % p;
    assert h == p * d + m;
    if d < q { MulStep(p, d, q); } else if d > q { MulStep(p, q, d); }
  }

  lemma HalfHome(h: nat, p: nat)
    requires p > 0
    ensures Home(h, 2 * p) == 2 * Home(h / 2, p) + h % 2
  {
    var q, r := h / 2 / p, h / 2 % p;
    assert h / 2 == p * q + r;
    assert h == 2 * (p * q + r) + h % 2 == (2 * p) * q + (2 * r + h % 2);
    ModUnique(h, 2 * p, q, 2 * r + h % 2);
  }

  lemma {:induction false} MaskIsHome(h: nat, k: nat)
    ensures And(h, Pow2(k) - 1) == Home(h, Pow2(k))
    decreases k
  {
    hide And, Home;
    AndStep(h, Pow2(k) - 1);
    if k > 0 {
      MaskHalves(Pow2(k - 1));
      MaskIsHome(h / 2, k - 1);
      HalfHome(h, Pow2(k - 1));
    }
  }

  /** HASH_TO_BKT: for a power of two the mask is the remainder. */
  lemma MaskIsMod(h: nat, k: nat)
    ensures And(h, Pow2(k) - 1) == h % Pow2(k) == Home(h, Pow2(k))
  {
    hide And, Pow2;
    MaskIsHome(h, k);
  }

  lemma HalfDiv(h: nat, p: nat)
    requires p > 0
    ensures h / (2 * p) == h / 2 / p
  {
    var q, r := h / 2 / p, h / 2 % p;
    assert h / 2 == p * q + r;
    assert h == (2 * p) * q + (2 * r + h % 2);
    ModUnique(h, 2 * p, q, 2 * r + h % 2);
  }

  lemma {:induction false} ShrIsDiv(h: nat, k: nat)
    ensures Shr(h, k) == h / Pow2(k)
    decreases k
  {
    if k == 0 {
      assert h / 1 == h;
    } else {
      ShrIsDiv(h / 2, k - 1);
      HalfDiv(h, Pow2(k - 1));
    }
  }

  lemma CeilIs(n: nat, b: nat)
    requires b > 0
    ensures var c := n / b + (if n % b != 0 then 1 else 0); c * b >= n && (c > 0 ==> (c - 1) * b < n)
  {
    var q, r := n / b, n % b;
    assert n == b * q + r;
    assert (q + 1) * b == b * q + b && (q - 1) * b == b * q - b && q * b == b * q;
  }

  /** uthash.h's shift-and-mask formula for the ideal chain length is n / 2^k rounded up. */
  lemma CeilFormula(n: nat, k: nat)
    ensures var b := Pow2(k); var c := Shr(n, k) + (if And(n, b - 1) != 0 then 1 else 0);
      && c * b >= n && (c > 0 ==> (c - 1) * b < n)
  {
    hide Pow2, And, Shr;
    MaskIsMod(n, k);
    ShrIsDiv(n, k);
    CeilIs(n, Pow2(k));
  }

  // ---- excess over the ideal

  ghost function Excess(c: nat, ideal: nat): nat { if c > ideal then c - ideal else 0 }

  ghost function SumExcess(counts: seq<nat>, ideal: nat): nat {
    if counts == [] then 0 else SumExcess(counts[..|counts| - 1], ideal) + Excess(counts[|counts| - 1], ideal)
  }

  lemma {:induction false} ExcessBump(counts: seq<nat>, ideal: nat, b: nat)
    requires b < |counts|
    ensures SumExcess(counts[b := counts[b] + 1], ideal)
      == SumExcess(counts, ideal) + if counts[b] + 1 > ideal then 1 else 0
  {
    var n := |counts| - 1;
    if b < n {
      assert counts[b := counts[b] + 1][..n] == counts[..n][b := counts[b] + 1];
      ExcessBump(counts[..n], ideal, b);
    } else {
      assert counts[b := counts[b] + 1][..n] == counts[..n];
    }
  }

  lemma {:induction false} NoExcess(counts: seq<nat>, ideal: nat)
    requires forall i | 0 <= i < |counts| :: counts[i] == 0
    ensures SumExcess(counts, ideal) == 0
  {
    if counts != [] { NoExcess(counts[..|counts| - 1], ideal); }
  }
}
