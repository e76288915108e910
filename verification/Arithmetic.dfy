/** Division into blocks. */
module Arithmetic {

  function Min(a: nat, b: nat): nat { if a < b then a else b }

  lemma MulLe(a: nat, b: nat, m: nat)
    requires a <= b
    ensures a * m <= b * m
  {
    assert (b - a) * m >= 0;
  }

  /** Byte i lies in block i / m, and blocks do not overlap. */
  lemma BlockBounds(i: nat, m: nat)
    requires m > 0
    ensures i / m * m <= i < (i / m + 1) * m
  {}

  lemma BlockOf(i: nat, k: nat, m: nat)
    requires m > 0 && k * m <= i < (k + 1) * m
    ensures i / m == k
  {
    var q := i / m;
    BlockBounds(i, m);
    if q < k {
      MulLe(q + 1, k, m);
    } else if k < q {
      MulLe(k + 1, q, m);
    }
  }

  lemma DivStep(i: nat, m: nat)
    requires m > 0
    ensures (i + m) / m == i / m + 1
  {
    BlockBounds(i, m);
    BlockOf(i + m, i / m + 1, m);
  }

  lemma DivLe(a: nat, b: nat, m: nat)
    requires a <= b && m > 0
    ensures a / m <= b / m
  {
    var p, q := a / m, b / m;
    BlockBounds(a, m);
    BlockBounds(b, m);
    if p > q {
      MulLe(q + 1, p, m);
    }
  }

  lemma Distribute(a: nat, b: nat, m: nat)
    ensures (a + b) * m == a * m + b * m
  {}

  lemma DivMod(x: nat, m: nat)
    requires m > 0
    ensures x == x / m * m + x % m && x % m < m
  {}

  lemma ModIs(x: nat, q: nat, r: nat, m: nat)
    requires m > 0 && r < m && x == q * m + r
    ensures x % m == r
  {
    BlockOf(x, q, m);
  }

  predicate PowerOfTwo(n: nat) {
    n == 1 || (n > 1 && n % 2 == 0 && PowerOfTwo(n / 2))
  }

  /** The position k steps after h in a ring of n. */
  function Ahead(h: nat, k: nat, n: nat): (i: nat)
    requires n > 0
    ensures i < n
  {
    (h + k) % n
  }

  lemma AheadIs(h: nat, k: nat, n: nat, r: nat)
    requires n > 0 && r < n && (h + k == r || h + k == r + n)
    ensures Ahead(h, k, n) == r
  {
    if h + k == r {
      ModIs(h + k, 0, r, n);
    } else {
      ModIs(h + k, 1, r, n);
    }
  }

  lemma AheadTwice(h: nat, i: nat, k: nat, n: nat)
    requires n > 0
    ensures Ahead(Ahead(h, i, n), k, n) == Ahead(h, i + k, n)
  {
    var q, r := (h + i) / n, (h + i) % n;
    var p, s := (r + k) / n, (r + k) % n;
    DivMod(h + i, n);
    DivMod(r + k, n);
    Distribute(q, p, n);
    ModIs(h + i + k, q + p, s, n);
  }

  lemma AheadDistinct(h: nat, i: nat, j: nat, n: nat)
    requires h < n && i < n && j < n && i != j
    ensures Ahead(h, i, n) != Ahead(h, j, n)
  {
    AheadIs(h, i, n, if h + i < n then h + i else h + i - n);
    AheadIs(h, j, n, if h + j < n then h + j else h + j - n);
  }
}
