/** Small facts about natural-number arithmetic shared by the other modules. */
module Arith {

  function Pow(b: nat, e: nat): nat
  {
    if e == 0 then 1 else b * Pow(b, e - 1)
  }

  lemma {:induction false} PowPositive(b: nat, e: nat)
    requires b > 0
    ensures Pow(b, e) > 0
  {
    if e > 0 {
      PowPositive(b, e - 1);
    }
  }

  function Abs(n: int): nat
  {
    if n < 0 then -n else n
  }

  lemma MulMono(a: nat, b: nat, c: nat)
    requires b <= c
    ensures a * b <= a * c
  {
    assert a * c == a * b + a * (c - b);
  }

  /** If `j < k` then row `j` of width `n` ends before row `k` starts. */
  lemma RowBefore(n: nat, j: nat, k: nat, x: nat)
    requires j < k && x < n
    ensures j * n + x < k * n
  {
    assert (j + 1) * n == j * n + n;
    MulMono(n, j + 1, k);
    assert n * (j + 1) == (j + 1) * n && n * k == k * n;
  }

  lemma MulPred(a: nat, b: nat)
    requires 0 < b
    ensures a * (b - 1) == a * b - a
  {
  }

  /** `w * h`, unfolded one row at a time so that proofs about rows stay linear. */
  function Area(w: nat, h: nat): nat
  {
    if h == 0 then 0 else Area(w, h - 1) + w
  }

  lemma {:induction false} AreaIsProduct(w: nat, h: nat)
    ensures Area(w, h) == w * h
  {
    if h > 0 {
      AreaIsProduct(w, h - 1);
      MulPred(w, h);
    }
  }

  lemma {:induction false} AreaMono(w: nat, h: nat, h': nat)
    requires h <= h'
    ensures Area(w, h) <= Area(w, h')
    decreases h'
  {
    if h < h' {
      AreaMono(w, h, h' - 1);
    }
  }

  lemma ModBelow(n: nat, m: nat)
    requires n < m
    ensures n % m == n
  {
  }
}
