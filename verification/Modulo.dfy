/** Residues: adding inside a remainder, and when two sums have the same. */
module Modulo {
  lemma AtLeastOne(k: int, n: int)
    requires k >= 1 && n > 0
    ensures k * n >= n && (-k) * n <= -n
  {
  }

  lemma SmallMultiple(d: int, k: int, n: int)
    requires n > 0 && -n < d < n && d == k * n
    ensures d == 0 && k == 0
  {
    if k >= 1 { AtLeastOne(k, n); } else if k <= -1 { AtLeastOne(-k, n); }
  }

  lemma Distribute(a: int, b: int, n: int)
    ensures (a + b) * n == a * n + b * n && (a - b) * n == a * n - b * n
  {
  }

  lemma Divided(a: int, n: int)
    requires n > 0
    ensures a == (a / n) * n + a % n && 0 <= a % n < n
  {
  }

  lemma DivUnique(a: int, q: int, r: nat, n: int)
    requires n > 0 && r < n && a == q * n + r
    ensures a / n == q && a % n == r
  {
    Divided(a, n);
    Distribute(a / n, q, n);
    SmallMultiple(r - a % n, a / n - q, n);
  }

  /** A remainder may be taken before adding. */
  lemma ModAdd(x: int, v: int, n: int)
    requires n > 0
    ensures (x % n + v) % n == (x + v) % n
  {
    var s := x % n + v;
    Divided(x, n);
    Divided(s, n);
    Distribute(x / n, s / n, n);
    DivUnique(x + v, x / n + s / n, s % n, n);
  }

  /** Two numbers have the same remainder exactly when they differ by a multiple. */
  lemma SameModulo(a: int, b: int, n: int)
    requires n > 0
    ensures a % n == b % n <==> (a - b) % n == 0
  {
    Divided(a, n);
    Divided(b, n);
    Divided(a - b, n);
    if a % n == b % n {
      Distribute(a / n, b / n, n);
      DivUnique(a - b, a / n - b / n, 0, n);
    }
    if (a - b) % n == 0 {
      Distribute((a - b) / n, b / n, n);
      DivUnique(a, (a - b) / n + b / n, b % n, n);
    }
  }

  predicate Congruent(a: int, b: int, n: int)
    requires n > 0
  {
    a % n == b % n
  }

  lemma Difference(a: int, b: int, c: int, d: int, n: int)
    requires n > 0 && Congruent(a, b, n) && Congruent(c, d, n)
    ensures Congruent(a - c, b - d, n)
  {
    SameModulo(a, b, n);
    SameModulo(c, d, n);
    SameModulo(a - b, c - d, n);
    assert (a - b) - (c - d) == (a - c) - (b - d);
    SameModulo(a - c, b - d, n);
  }

  lemma Same(a: int, n: int)
    requires n > 0
    ensures Congruent(a, a, n)
  {
  }

  lemma SmallCongruent(d: int, e: int, n: int)
    requires n > 0 && -n < d < n && Congruent(d, e, n)
    ensures d == 0 <==> e % n == 0
  {
    Divided(d, n);
    if e % n == 0 { SmallMultiple(d, d / n, n); }
  }

  lemma SmallModulo(d: int, n: int)
    requires n > 0 && -n < d < n && d % n == 0
    ensures d == 0
  {
    Divided(d, n);
    SmallMultiple(d, d / n, n);
  }

  /** Residues are equal exactly when what they are residues of is a multiple apart. */
  lemma Shifted(p: int, v: int, a: int, q: int, w: int, b: int, n: int)
    requires n > 0 && 0 <= p < n && 0 <= q < n && Congruent(p + v, a, n) && Congruent(q + w, b, n)
    ensures p == q <==> ((a - v) - (b - w)) % n == 0
  {
    hide Congruent;
    Same(v, n);
    Same(w, n);
    Difference(p + v, a, v, v, n);
    Difference(q + w, b, w, w, n);
    Difference(p, a - v, q, b - w, n);
    SmallCongruent(p - q, (a - v) - (b - w), n);
  }
}
