/** Remainders: the arithmetic of slot and table indices. */
module Modular {

  /** x % n where x is less than 2n. */
  lemma ModOnce(x: nat, n: nat)
    requires 0 < n && x < 2 * n
    ensures x % n == if x < n then x else x - n
  {
    if x >= n {
      assert x == n + (x - n);
      assert (x - n) / n == 0;
      assert x / n == 1;
    }
  }

  /** x % n by repeated subtraction, which keeps it out of nonlinear arithmetic. */
  function Rem(x: nat, n: nat): (r: nat)
    requires 0 < n
    ensures r < n
  {
    if x < n then x else Rem(x - n, n)
  }

  lemma {:induction false} RemIsMod(x: nat, n: nat)
    requires 0 < n
    ensures Rem(x, n) == x % n
    decreases x
  {
    if x < n {
      SmallRemainder(x, n);
    } else {
      RemIsMod(x - n, n);
      var q := (x - n) / n;
      assert x - n == q * n + (x - n) % n;
      assert (q + 1) * n == q * n + n;
      ModUnique(x, q + 1, (x - n) % n, n);
    }
  }

  lemma SmallRemainder(x: nat, n: nat)
    requires x < n
    ensures x % n == x
  {
  }

  lemma ModUnique(x: int, q: int, r: nat, n: nat)
    requires r < n && x == q * n + r
    ensures x % n == r
  {
    var d := x / n - q;
    assert x == (x / n) * n + x % n;
    assert d * n == r - x % n;
    assert d == 0;
  }

  lemma DivUnique(x: int, q: int, r: nat, n: nat)
    requires r < n && x == q * n + r
    ensures x / n == q && x % n == r
  {
    ModUnique(x, q, r, n);
    assert x == (x / n) * n + x % n;
    assert (x / n - q) * n == 0;
  }

  lemma ModPlus(k: nat, j: nat, n: nat)
    requires 0 < n
    ensures (k + j) % n == (k % n + j) % n
  {
    var r := (k % n + j) % n;
    var q := (k % n + j) / n;
    assert k == (k / n) * n + k % n;
    assert k % n + j == q * n + r;
    assert (k / n + q) * n == (k / n) * n + q * n;
    ModUnique(k + j, k / n + q, r, n);
  }

  /** Two numbers less than n apart are in different residue classes; n apart, in the same. */
  lemma ModApart(k: nat, j: nat, n: nat)
    requires 0 < n && j <= n
    ensures (k + j) % n == k % n <==> j == 0 || j == n
  {
    ModPlus(k, j, n);
    ModOnce(k % n + j, n);
  }

  /** The number of pieces of this size that n is cut into. */
  function Pieces(n: nat, size: nat): nat
    requires 0 < size
  {
    if n % size == 0 then n / size else n / size + 1
  }

  /** That is the least number of pieces that hold n. */
  lemma PiecesIsLeast(n: nat, size: nat)
    requires 0 < size
    ensures n <= Pieces(n, size) * size
    ensures n > 0 ==> Pieces(n, size) > 0 && (Pieces(n, size) - 1) * size < n
  {
    var q, r := n / size, n % size;
    assert n == q * size + r;
    assert (q + 1) * size == q * size + size;
    assert (q - 1) * size == q * size - size;
  }

  lemma PiecesNext(n: nat, size: nat)
    requires 0 < size < n
    ensures Pieces(n, size) == Pieces(n - size, size) + 1
  {
    var rest := n - size;
    assert rest == (rest / size) * size + rest % size;
    assert (rest / size + 1) * size == (rest / size) * size + size;
    DivUnique(n, rest / size + 1, rest % size, size);
  }
}
