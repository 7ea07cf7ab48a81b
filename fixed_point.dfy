/** Fixed-width signal arithmetic as the hardware description language performs it:
    values are unbounded integers, and every assignment to an n-bit signal keeps
    only the low n bits (reinterpreted as two's complement when the signal is signed). */
module FixedPoint {

  /** 2^n */
  function Pow2(n: nat): (r: nat)
    ensures r >= 1
  {
    if n == 0 then 1 else 2 * Pow2(n - 1)
  }

  lemma {:induction false} Pow2Add(a: nat, b: nat)
    ensures Pow2(a + b) == Pow2(a) * Pow2(b)
  {
    if a > 0 {
      Pow2Add(a - 1, b);
      assert Pow2(a + b) == 2 * Pow2(a - 1 + b);
    }
  }

  lemma {:induction false} Pow2Monotone(a: nat, b: nat)
    requires a <= b
    ensures Pow2(a) <= Pow2(b)
  {
    if a < b {
      Pow2Monotone(a, b - 1);
    }
  }

  /** The low n bits of v, as an unsigned number: what an unsigned n-bit signal
      holds after being assigned v. */
  function Wrap(v: int, n: nat): (r: nat)
    ensures r < Pow2(n)
    ensures v - r == (v / Pow2(n)) * Pow2(n)
  {
    v % Pow2(n)
  }

  /** v fits an n-bit two's-complement signal. */
  predicate InSigned(v: int, n: nat)
    requires n >= 1
  {
    -(Pow2(n - 1) as int) <= v < Pow2(n - 1)
  }

  /** The value of the n-bit pattern b read as two's complement. */
  function ToSigned(b: nat, n: nat): (v: int)
    requires n >= 1 && b < Pow2(n)
    ensures InSigned(v, n)
    ensures v == b || v == b - Pow2(n)
  {
    if b < Pow2(n - 1) then b else b - Pow2(n)
  }

  /** What a signed n-bit signal holds after being assigned v. */
  function AssignSigned(v: int, n: nat): (r: int)
    requires n >= 1
    ensures InSigned(r, n)
  {
    ToSigned(Wrap(v, n), n)
  }

  /** A remainder is determined by any quotient/remainder decomposition. */
  lemma ModUnique(v: int, m: nat, q: int, r: int)
    requires m >= 1 && v == q * m + r && 0 <= r < m
    ensures v % m == r && v / m == q
  {
    var q', r' := v / m, v % m;
    assert v == q' * m + r';
    var d := q - q';
    assert d * m == r' - r by {
      assert q * m - q' * m == d * m;
    }
    if d > 0 {
      MulNonneg(d - 1, m);
    } else if d < 0 {
      MulNonneg(-d - 1, m);
    }
  }

  lemma MulNonneg(a: int, b: int)
    requires a >= 0 && b >= 0
    ensures a * b >= 0
  {
  }

  /** Assigning a value to a signal of its own width and signedness loses nothing,
      and the stored pattern agrees with the value modulo 2^n. */
  lemma AssignSignedExact(v: int, n: nat)
    requires n >= 1
    ensures Wrap(AssignSigned(v, n), n) == Wrap(v, n)
    ensures AssignSigned(v, n) == v <==> InSigned(v, n)
  {
    var b := Wrap(v, n);
    var r := AssignSigned(v, n);
    assert Pow2(n) == 2 * Pow2(n - 1);
    if r == b {
      ModUnique(r, Pow2(n), 0, b);
    } else {
      ModUnique(r, Pow2(n), -1, b);
    }
    if InSigned(v, n) {
      if v >= 0 {
        ModUnique(v, Pow2(n), 0, v);
      } else {
        ModUnique(v, Pow2(n), -1, v + Pow2(n));
      }
    }
  }

  /** Truncation commutes with addition: dropping the carry before or after adding
      gives the same low bits. */
  lemma WrapAdd(a: int, b: int, n: nat)
    ensures Wrap(Wrap(a, n) + b, n) == Wrap(a + b, n)
  {
    var m := Pow2(n);
    var qa, ra := a / m, a % m;
    var qs, rs := (ra + b) / m, (ra + b) % m;
    assert a + b == (qa + qs) * m + rs;
    ModUnique(a + b, m, qa + qs, rs);
  }

  /** Adding a whole number of periods does not change the low bits. */
  lemma WrapPeriod(a: int, k: int, n: nat)
    ensures Wrap(a + k * Pow2(n), n) == Wrap(a, n)
  {
    var m := Pow2(n);
    var q, r := a / m, a % m;
    assert a + k * m == (q + k) * m + r;
    ModUnique(a + k * m, m, q + k, r);
  }

  /** Bits lo .. hi-1 of v (the hardware slice v[lo:hi]), as an unsigned number. */
  function Slice(v: nat, lo: nat, hi: nat): (r: nat)
    requires lo <= hi
    ensures r < Pow2(hi - lo)
  {
    Wrap(v / Pow2(lo), hi - lo)
  }

  /** When v is an hi-bit number, its top bits from lo up are v shifted right by lo,
      and v is recovered from the top slice and the low bits. */
  lemma SliceTop(v: nat, lo: nat, hi: nat)
    requires lo <= hi && v < Pow2(hi)
    ensures Slice(v, lo, hi) == v / Pow2(lo)
    ensures v == Slice(v, lo, hi) * Pow2(lo) + v % Pow2(lo)
  {
    Pow2Split(lo, hi);
    TopSlice(v, Pow2(lo), Pow2(hi - lo));
  }

  /** The quotient of v < a * b by a needs no further reduction modulo b. */
  lemma TopSlice(v: nat, a: nat, b: nat)
    requires a >= 1 && v < a * b
    ensures (v / a) % b == v / a
    ensures v == (v / a) * a + v % a
  {
    DivBelow(v, a, b);
    ModUnique(v / a, b, 0, v / a);
  }

  lemma Pow2Split(lo: nat, hi: nat)
    requires lo <= hi
    ensures Pow2(lo) * Pow2(hi - lo) == Pow2(hi)
  {
    Pow2Add(lo, hi - lo);
  }

  /** v < a * b implies v / a < b. */
  lemma DivBelow(v: nat, a: nat, b: nat)
    requires a >= 1 && v < a * b
    ensures v / a < b
    ensures v == (v / a) * a + v % a
  {
    var q := v / a;
    if q >= b {
      MulNonneg(q - b, a);
    }
  }

  /** Arithmetic shift right by one place (v >> 1 on a signed signal): rounds towards
      minus infinity. Dafny's division by a positive divisor is floor division. */
  function ShiftRight1(v: int): (r: int)
    ensures 2 * r <= v <= 2 * r + 1
  {
    v / 2
  }

  /** Halving an (n+1)-bit two's-complement value always fits n bits. */
  lemma ShiftRight1Narrows(v: int, n: nat)
    requires n >= 1 && InSigned(v, n + 1)
    ensures InSigned(ShiftRight1(v), n)
  {
    assert Pow2(n) == 2 * Pow2(n - 1);
  }
}
