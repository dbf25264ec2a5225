/** The identity of a product state.  Every revision of the fold numbers the
    state built from left state `q` and right state `r` as `mod * q + r`, where
    `mod` is the state count of the right factor: a row-major linear index. */
module ProductIds {

  /** Index of the product state (q, r) when the right factor has `mod` states. */
  function VertexId(mod: nat, q: nat, r: nat): nat
  {
    mod * q + r
  }

  /** Multiplication by a natural number is monotone. */
  lemma MulMonotone(c: nat, a: nat, b: nat)
    requires a <= b
    ensures c * a <= c * b
  {
    assert c * b == c * a + c * (b - a);
  }

  /** Distributing one more row. */
  lemma MulSucc(k: nat, c: nat)
    ensures (k + 1) * c == k * c + c
  {
  }

  /** A strict product inequality with a common left factor orders the right factors. */
  lemma MulCancelLess(c: nat, a: nat, b: nat)
    requires c * a < c * b
    ensures a < b
  {
    if b <= a {
      MulMonotone(c, b, a);
    }
  }

  /** Euclidean division is unique: the quotient and remainder of `mod * q + r`
      with `r < mod` are `q` and `r`. */
  lemma DivModUnique(mod: nat, q: nat, r: nat, x: nat)
    requires r < mod
    requires x == mod * q + r
    ensures x / mod == q && x % mod == r
  {
    var a, b := x / mod, x % mod;
    assert x == mod * a + b;
    assert mod * a < mod * (q + 1) by {
      assert mod * (q + 1) == mod * q + mod;
    }
    assert mod * q < mod * (a + 1) by {
      assert mod * (a + 1) == mod * a + mod;
    }
    MulCancelLess(mod, a, q + 1);
    MulCancelLess(mod, q, a + 1);
  }

  /** Decoding a product id recovers both local states. */
  lemma VertexIdDecode(mod: nat, q: nat, r: nat)
    requires r < mod
    ensures VertexId(mod, q, r) / mod == q
    ensures VertexId(mod, q, r) % mod == r
  {
    DivModUnique(mod, q, r, VertexId(mod, q, r));
  }

  /** Every pair of an m-state and an n-state factor lands in [0, m*n). */
  lemma VertexIdInRange(m: nat, n: nat, q: nat, r: nat)
    requires q < m && r < n
    ensures VertexId(n, q, r) < m * n
  {
    assert n * q + n == n * (q + 1);
    MulMonotone(n, q + 1, m);
  }

  /** Distinct pairs get distinct ids. */
  lemma VertexIdInjective(n: nat, q1: nat, r1: nat, q2: nat, r2: nat)
    requires r1 < n && r2 < n
    requires VertexId(n, q1, r1) == VertexId(n, q2, r2)
    ensures q1 == q2 && r1 == r2
  {
    VertexIdDecode(n, q1, r1);
    VertexIdDecode(n, q2, r2);
  }

  /** Every id in [0, m*n) is the id of some pair: together with the two lemmas
      above, `VertexId(n, _, _)` is a bijection from [0,m) x [0,n) onto [0, m*n). */
  lemma VertexIdOnto(m: nat, n: nat, v: nat)
    requires v < m * n
    ensures n > 0 && v / n < m && v % n < n
    ensures VertexId(n, v / n, v % n) == v
  {
    assert n > 0;
    var q, r := v / n, v % n;
    assert v == n * q + r;
    MulCancelLess(n, q, m);
  }
}
