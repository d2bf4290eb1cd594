/**
 * The wrap-around index arithmetic of the automaton: JavaScript's `%`
 * (a truncating remainder whose sign follows the dividend) and the
 * `modulo(n, m)` helper built from it as `((n % m) + m) % m`.
 * Dafny's own `%` is the Euclidean remainder, which is the reference the
 * helper is proved against.
 */
module WrapAround {
  function Abs(m: int): nat {
    if m < 0 then -m else m
  }

  /** JavaScript's `n % m`: the remainder of truncating division, with the sign of `n`. */
  function JsRem(n: int, m: int): (r: int)
    requires m != 0
    ensures -(Abs(m) as int) < r < Abs(m)
    ensures n >= 0 ==> r >= 0
    ensures n < 0 ==> r <= 0
    ensures (n - r) % Abs(m) == 0
  {
    var M := Abs(m);
    if n >= 0 then
      RemainderMultiple(n, M);
      n % M
    else
      RemainderMultiple(-n, M);
      -((-n) % M)
  }

  /** Taking away the remainder leaves a multiple of m, and so does its negation. */
  lemma RemainderMultiple(a: int, m: int)
    requires m > 0
    ensures (a - a % m) % m == 0
    ensures (-(a - a % m)) % m == 0
  {
    var q := a / m;
    assert a - a % m == q * m;
    assert -(q * m) == (-q) * m;
    DivModUnique(q * m, m, q, 0);
    DivModUnique((-q) * m, m, -q, 0);
  }

  lemma AtLeastOnce(k: int, m: int)
    requires k >= 1 && m > 0
    ensures k * m >= m
  {
  }

  /** Euclidean division has one remainder. */
  lemma DivModUnique(a: int, m: int, q: int, r: int)
    requires m > 0 && a == q * m + r && 0 <= r < m
    ensures a % m == r
  {
    var q', r' := a / m, a % m;
    assert (q - q') * m == r' - r;
    if q > q' {
      AtLeastOnce(q - q', m);
    } else if q < q' {
      AtLeastOnce(q' - q, m);
    }
  }

  /** The Euclidean remainder of a negative number, from that of its negation. */
  lemma NegativeMod(n: int, m: int)
    requires m > 0 && n < 0
    ensures n % m == if (-n) % m == 0 then 0 else m - (-n) % m
  {
    var q, s := (-n) / m, (-n) % m;
    if s == 0 {
      DivModUnique(n, m, -q, 0);
    } else {
      DivModUnique(n, m, -q - 1, m - s);
    }
  }

  lemma ModuloPositive(n: int, m: int)
    requires m > 0
    ensures JsRem(JsRem(n, m) + m, m) == n % m
  {
    var t := JsRem(n, m);
    if n >= 0 {
      assert t == n % m;
      DivModUnique(t + m, m, 1, t);
    } else {
      assert t == -((-n) % m);
      NegativeMod(n, m);
      if t + m < m {
        DivModUnique(t + m, m, 0, t + m);
      } else {
        DivModUnique(t + m, m, 1, 0);
      }
    }
  }

  lemma NegatedNaturalMod(n: int, M: int)
    requires M > 0 && n >= 0
    ensures (-n) % M == if n % M == 0 then 0 else M - n % M
  {
    if n > 0 {
      NegativeMod(-n, M);
    } else {
      DivModUnique(0, M, 0, 0);
    }
  }

  lemma ComplementBelow(t: int, M: int)
    requires 0 <= t < M
    ensures (M - t) % M == if t == 0 then 0 else M - t
  {
    if t == 0 {
      DivModUnique(M, M, 1, 0);
    } else {
      DivModUnique(M - t, M, 0, M - t);
    }
  }

  lemma ComplementMod(n: int, M: int)
    requires M > 0 && n >= 0
    ensures (M - n % M) % M == (-n) % M
  {
    NegatedNaturalMod(n, M);
    ComplementBelow(n % M, M);
  }

  lemma ModuloNegativeOfNatural(n: int, M: int)
    requires M > 0 && n >= 0
    ensures JsRem(JsRem(n, -M) - M, -M) == -((-n) % M)
  {
    var t := n % M;
    assert JsRem(n, -M) == t;
    assert JsRem(t - M, -M) == -((M - t) % M);
    ComplementMod(n, M);
  }

  lemma ModuloNegativeOfNegative(n: int, M: int)
    requires M > 0 && n < 0
    ensures JsRem(JsRem(n, -M) - M, -M) == -((-n) % M)
  {
    var t := -((-n) % M);
    assert JsRem(n, -M) == t;
    assert JsRem(t - M, -M) == -((M - t) % M);
    DivModUnique(M - t, M, 1, -t);
  }

  lemma ModuloNegative(n: int, m: int)
    requires m < 0
    ensures JsRem(JsRem(n, m) + m, m) == -((-n) % -m)
  {
    if n >= 0 {
      ModuloNegativeOfNatural(n, -m);
    } else {
      ModuloNegativeOfNegative(n, -m);
    }
  }

  lemma ModuloCases(n: int, m: int)
    requires m != 0
    ensures m > 0 ==> JsRem(JsRem(n, m) + m, m) == n % m
    ensures m < 0 ==> JsRem(JsRem(n, m) + m, m) == -((-n) % -m)
  {
    if m > 0 { ModuloPositive(n, m); } else { ModuloNegative(n, m); }
  }

  /**
   * `modulo(n, m)`: for a positive `m` it is the mathematical remainder, in
   * 0..m-1 and congruent to `n`; for a negative `m` it lies in m+1..0.
   */
  function Modulo(n: int, m: int): (r: int)
    requires m != 0
    ensures m > 0 ==> 0 <= r < m && r == n % m
    ensures m < 0 ==> m < r <= 0 && r == -((-n) % -m)
  {
    ModuloCases(n, m);
    JsRem(JsRem(n, m) + m, m)
  }
}
