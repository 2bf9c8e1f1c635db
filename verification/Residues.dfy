/** Counting the numbers below a bound that leave a given remainder. */
module Residues {

  lemma {:induction false} MulAtLeast(b: int, k: int)
    requires b > 0 && k >= 1
    ensures b * k >= b
    decreases k
  {
    if k > 1 {
      MulAtLeast(b, k - 1);
      assert b * k == b * (k - 1) + b;
    }
  }

  lemma SameQuotient(b: int, q: int, r: int, q': int, r': int)
    requires b > 0 && b * q + r == b * q' + r' && 0 <= r < b && 0 <= r' < b
    ensures q == q' && r == r'
  {
    assert b * (q - q') == r' - r && b * (q' - q) == r - r';
    if q > q' {
      MulAtLeast(b, q - q');
    } else if q < q' {
      MulAtLeast(b, q' - q);
    }
  }

  lemma DivUnique(a: int, b: int, q: int, r: int)
    requires b > 0 && a == b * q + r && 0 <= r < b
    ensures a / b == q && a % b == r
  {
    SameQuotient(b, a / b, a % b, q, r);
  }

  /** Remainder and quotient by repeated subtraction: `a % b` and `a / b`, see `ModDiv`. */
  function Mod(a: nat, b: nat): nat
    requires b > 0
  {
    if a < b then a else Mod(a - b, b)
  }

  function Div(a: nat, b: nat): nat
    requires b > 0
  {
    if a < b then 0 else Div(a - b, b) + 1
  }

  lemma {:induction false} ModDiv(a: nat, b: nat)
    requires b > 0
    ensures Mod(a, b) == a % b && Div(a, b) == a / b
    ensures Mod(a, b) < b && a == b * Div(a, b) + Mod(a, b)
  {
    if a < b {
      DivUnique(a, b, 0, a);
    } else {
      ModDiv(a - b, b);
      var q, r := Div(a - b, b), Mod(a - b, b);
      assert b * (q + 1) == b * q + b;
      DivUnique(a, b, q + 1, r);
    }
  }

  lemma {:induction false} ModBound(a: nat, b: nat)
    requires b > 0
    ensures Mod(a, b) < b
  {
    if a >= b {
      ModBound(a - b, b);
    }
  }

  lemma ModDivUnique(a: nat, b: nat, q: nat, r: nat)
    requires b > 0 && a == b * q + r && r < b
    ensures Div(a, b) == q && Mod(a, b) == r
  {
    ModDiv(a, b);
    DivUnique(a, b, q, r);
  }

  /** How many numbers below `n` leave remainder `r` by `m`. */
  function CountResidue(n: nat, m: nat, r: nat): nat
    requires m > 0
  {
    if n == 0 then 0 else CountResidue(n - 1, m, r) + if Mod(n - 1, m) == r then 1 else 0
  }

  lemma DivStep(a: nat, m: nat)
    requires m > 0
    ensures (a + 1) / m == a / m + if (a + 1) % m == 0 then 1 else 0
  {
    var q, r := a / m, a % m;
    if r + 1 < m {
      DivUnique(a + 1, m, q, r + 1);
    } else {
      assert m * (q + 1) == m * q + m;
      DivUnique(a + 1, m, q + 1, 0);
    }
  }

  lemma ShiftedMultiple(n: nat, m: nat, r: nat)
    requires r < m
    ensures (n + m - r) % m == 0 <==> n % m == r
  {
    var q, x := n / m, n % m;
    assert m * (q + 1) == m * q + m;
    if x >= r {
      DivUnique(n + m - r, m, q + 1, x - r);
    } else {
      DivUnique(n + m - r, m, q, x + m - r);
    }
  }

  lemma {:induction false} CountResidueClosed(n: nat, m: nat, r: nat)
    requires r < m
    ensures CountResidue(n, m, r) == (n + m - 1 - r) / m
  {
    if n == 0 {
      DivUnique(m - 1 - r, m, 0, m - 1 - r);
    } else {
      CountResidueClosed(n - 1, m, r);
      ModDiv(n - 1, m);
      DivStep(n + m - 2 - r, m);
      ShiftedMultiple(n - 1, m, r);
    }
  }

  lemma DivMonotone(a: nat, b: nat, m: nat)
    requires m > 0 && a <= b <= a + m
    ensures a / m <= b / m <= a / m + 1
  {
    var q, r := a / m, a % m;
    assert m * (q + 1) == m * q + m;
    if r + (b - a) < m {
      DivUnique(b, m, q, r + (b - a));
    } else {
      DivUnique(b, m, q + 1, r + (b - a) - m);
    }
  }

  /** Remainders share the numbers below `n` evenly, the smaller ones first. */
  lemma CountResidueBalanced(n: nat, m: nat, r: nat, s: nat)
    requires r <= s < m
    ensures CountResidue(n, m, s) <= CountResidue(n, m, r) <= CountResidue(n, m, s) + 1
  {
    CountResidueClosed(n, m, r);
    CountResidueClosed(n, m, s);
    DivMonotone(n + m - 1 - s, n + m - 1 - r, m);
  }

  lemma CountResiduesClose(n: nat, m: nat, r: nat, s: nat)
    requires r < m && s < m
    ensures CountResidue(n, m, r) <= CountResidue(n, m, s) + 1
  {
    if r <= s {
      CountResidueBalanced(n, m, r, s);
    } else {
      CountResidueBalanced(n, m, s, r);
    }
  }

  /** A number is preceded by as many of its own remainder as it has full turns. */
  lemma CountBefore(n: nat, m: nat)
    requires m > 0
    ensures CountResidue(n, m, Mod(n, m)) == Div(n, m)
  {
    ModDiv(n, m);
    CountResidueClosed(n, m, Mod(n, m));
    DivUnique(n + m - 1 - Mod(n, m), m, Div(n, m), m - 1);
  }

  /** Two-digit mixed radix: `x` below `m` and `y` above. */
  lemma MixedRadix(m: nat, p: nat, x: nat, y: nat)
    requires x < m && y < p
    ensures x + m * y < m * p
    ensures Mod(x + m * y, m) == x && Div(x + m * y, m) == y
  {
    assert m * p == m * y + m * (p - y);
    MulAtLeast(m, p - y);
    ModDivUnique(x + m * y, m, y, x);
  }

  lemma ThreeDigits(m: nat, p: nat, s: nat, t: nat, c: nat)
    requires s < m && t < p
    ensures m * p > 0
    ensures Div(m * (p * c + t) + s, m * p) == c && Mod(m * (p * c + t) + s, m * p) == s + m * t
  {
    MixedRadix(m, p, s, t);
    assert m * (p * c + t) == m * (p * c) + m * t;
    assert m * (p * c) == (m * p) * c;
    ModDivUnique(m * (p * c + t) + s, m * p, c, s + m * t);
  }

  /** Splitting by `m` and then by `p` is splitting by their product. */
  lemma NestedDivision(i: nat, m: nat, p: nat)
    requires m > 0 && p > 0
    ensures m * p > 0
    ensures Mod(i, m * p) == Mod(i, m) + m * Mod(Div(i, m), p)
    ensures Div(i, m * p) == Div(Div(i, m), p)
  {
    ModDiv(i, m);
    ModDiv(Div(i, m), p);
    ThreeDigits(m, p, Mod(i, m), Mod(Div(i, m), p), Div(Div(i, m), p));
  }
}
