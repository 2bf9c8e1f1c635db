/** Spreading dates over a span of days by steps of seventeen. Dates are day numbers. */
module Dates {
  import Residues

  const STEP := 17

  /** The day offset of an index: `(index * 17) % spanDays`. */
  function Offset(index: nat, spanDays: nat): nat
    requires spanDays > 0
  {
    (index * STEP) % spanDays
  }

  /** `n` divides `x`. */
  ghost predicate Divides(n: int, x: int) { exists q :: x == n * q }

  /** The date falls within the span, at the offset congruent to seventeen times the index. */
  method DistributedDate(index: nat, spanDays: nat, start: int) returns (date: int)
    requires spanDays > 0
    ensures start <= date < start + spanDays
    ensures Divides(spanDays, 17 * index - (date - start))
  {
    date := start;
    date := date + (index * STEP) % spanDays;
    assert STEP * index - (date - start) == spanDays * ((index * STEP) / spanDays);
  }

  ghost predicate Reached(spanDays: nat, base: nat, day: nat)
    requires spanDays > 0
  {
    exists i: nat :: base <= i < base + spanDays && Offset(i, spanDays) == day
  }

  /** Among `spanDays` indices from `base` on, every day offset is used exactly once. */
  ghost predicate SpreadsEvenly(spanDays: nat, base: nat)
    requires spanDays > 0
  {
    && (forall day: nat | day < spanDays :: Reached(spanDays, base, day))
    && (forall i: nat, j: nat | base <= i < j < base + spanDays :: Offset(i, spanDays) != Offset(j, spanDays))
  }

  /** A multiple of `n` strictly between `-n` and `n` is zero. */
  lemma SmallMultiple(n: int, q: int, r: int)
    requires n > 0 && n * q == r && -n < r < n
    ensures q == 0 && r == 0
  {
    assert n * (-q) == -r;
    if q >= 1 {
      Residues.MulAtLeast(n, q);
    } else if q <= -1 {
      Residues.MulAtLeast(n, -q);
    }
  }

  lemma InverseAlgebra(n: int, q: int, r: int, v: int, k: int)
    requires n == STEP * q + r && r * v == STEP * k + 1
    ensures STEP * -(q * v + k) - 1 == n * (-v)
  {
    assert n * v == STEP * (q * v) + r * v;
  }

  /** Seventeen has an inverse modulo every number it does not divide. */
  lemma Inverse(n: nat) returns (u: int)
    requires n % STEP != 0
    ensures Divides(n, STEP * u - 1)
  {
    var q, r := n / STEP, n % STEP;
    var v := InverseOfResidue(r);
    var k := (r * v) / STEP;
    u := -(q * v + k);
    InverseAlgebra(n, q, r, v, k);
  }

  lemma InverseOfResidue(r: nat) returns (v: nat)
    requires 0 < r < STEP
    ensures (r * v) % STEP == 1
  {
    v := [1, 9, 6, 13, 7, 3, 5, 15, 2, 12, 14, 10, 4, 11, 8, 16][r - 1];
  }

  /** Two numbers with the same remainder differ by a multiple. */
  lemma SameRemainder(a: nat, b: nat, n: nat)
    requires n > 0 && a % n == b % n
    ensures Divides(n, b - a)
  {
    assert b - a == n * (b / n - a / n);
  }

  lemma OffsetsDiffer(n: nat, i: nat, j: nat)
    requires n % STEP != 0 && i < j < i + n
    ensures Offset(i, n) != Offset(j, n)
  {
    if Offset(i, n) == Offset(j, n) {
      SameRemainder(i * STEP, j * STEP, n);
      var q :| j * STEP - i * STEP == n * q;
      var u := Inverse(n);
      var w :| STEP * u - 1 == n * w;
      assert (j - i) * (STEP * u) == (n * q) * u;
      assert j - i == n * (q * u - (j - i) * w);
      SmallMultiple(n, q * u - (j - i) * w, j - i);
    }
  }

  lemma OffsetReached(n: nat, base: nat, day: nat) returns (i: nat)
    requires n % STEP != 0 && day < n
    ensures base <= i < base + n && Offset(i, n) == day
  {
    var u := Inverse(n);
    var w :| STEP * u - 1 == n * w;
    i := base + (day * u - base) % n;
    var k := (day * u - base) / n;
    assert i == day * u - n * k;
    assert STEP * i - day == n * (day * w - STEP * k);
    RemainderOf(STEP * i, n, day * w - STEP * k, day);
  }

  lemma RemainderOf(a: int, n: int, q: int, r: int)
    requires n > 0 && a - r == n * q && 0 <= r < n
    ensures a % n == r
  {
    assert n * (q - a / n) == a % n - r;
    SmallMultiple(n, q - a / n, a % n - r);
  }

  /** Those two facts single out one date, the one at the index's offset. */
  lemma DateByOffset(index: nat, spanDays: nat, start: int, date: int)
    requires spanDays > 0
    ensures start <= date < start + spanDays && Divides(spanDays, 17 * index - (date - start))
      <==> date == start + Offset(index, spanDays)
  {
    if start <= date < start + spanDays && Divides(spanDays, STEP * index - (date - start)) {
      var q :| STEP * index - (date - start) == spanDays * q;
      RemainderOf(index * STEP, spanDays, q, date - start);
    }
    if date == start + Offset(index, spanDays) {
      assert STEP * index - (date - start) == spanDays * ((index * STEP) / spanDays);
    }
  }

  /** When seventeen divides the span, only multiples of seventeen are reached. */
  lemma OffsetIsMultiple(n: nat, i: nat)
    requires n > 0 && n % STEP == 0
    ensures Offset(i, n) % STEP == 0
  {
    var q := (i * STEP) / n;
    assert Offset(i, n) == i * STEP - n * q;
    assert n * q == STEP * (n / STEP * q);
    assert Offset(i, n) == STEP * (i - n / STEP * q);
  }

  /** The spread is even, from any starting index, exactly when seventeen does not divide the span. */
  lemma SpreadsEvenlyIff(spanDays: nat, base: nat)
    requires spanDays > 0
    ensures SpreadsEvenly(spanDays, base) <==> spanDays % 17 != 0
  {
    if spanDays % STEP != 0 {
      forall day: nat | day < spanDays ensures Reached(spanDays, base, day) {
        var i := OffsetReached(spanDays, base, day);
      }
      forall i: nat, j: nat | base <= i < j < base + spanDays ensures Offset(i, spanDays) != Offset(j, spanDays) {
        OffsetsDiffer(spanDays, i, j);
      }
    } else {
      forall i: nat | base <= i < base + spanDays ensures Offset(i, spanDays) != 1 {
        OffsetIsMultiple(spanDays, i);
      }
      assert !Reached(spanDays, base, 1);
    }
  }

  /** The 520 days of the seed. */
  lemma SeedSpreadsEvenly(base: nat)
    ensures SpreadsEvenly(520, base)
  {
    SpreadsEvenlyIff(520, base);
  }
}
