/** Facts of nonlinear arithmetic, stated so that each use names its terms. */
module Arith {

  lemma MulLe(a: int, b: int, q: nat)
    requires a <= b
    ensures a * q <= b * q
  {
  }

  lemma DivLt(r: nat, p: nat, q: nat)
    requires q > 0 && r < p * q
    ensures r / q < p
  {
    if r / q >= p { MulLe(p, r / q, q); }
  }

  lemma DivUnique(x: nat, q: nat, i: nat)
    requires q > 0 && i * q <= x < (i + 1) * q
    ensures x / q == i && x % q == x - i * q
  {
    if x / q < i { MulLe(x / q + 1, i, q); }
    if x / q > i { MulLe(i + 1, x / q, q); }
  }

  /** Two-digit numerals: with `r = (c * p + d) * q + b`, `r` modulo `p * q` is `d * q + b`. */
  lemma Digits(c: nat, d: nat, b: nat, p: nat, q: nat)
    requires d < p && b < q
    ensures p * q > 0
    ensures ((c * p + d) * q + b) % (p * q) == d * q + b
    ensures (d * q + b) / q == d && (d * q + b) % q == b
  {
    MulLe(d + 1, p, q);
    MulAssoc1(d, q);
    MulAssoc(c, p, q, d);
    MulAssoc1(c, p * q);
    MulLe(1, p, q);
    assert d * q + b < p * q;
    DivUnique((c * p + d) * q + b, p * q, c);
    DivUnique(d * q + b, q, d);
  }

  lemma ModDiv(r: nat, p: nat, q: nat)
    requires p > 0 && q > 0
    ensures p * q > 0
    ensures r % (p * q) / q == r / q % p
    ensures r % (p * q) % q == r % q
  {
    DivModId(r, q);
    DivModId(r / q, p);
    Digits(r / q / p, r / q % p, r % q, p, q);
  }

  lemma DivModId(x: nat, y: nat)
    requires y > 0
    ensures x / y >= 0 && x == x / y * y + x % y && 0 <= x % y < y
  {
  }

  lemma MulAssoc(c: int, p: int, q: int, d: int)
    ensures (c * p + d) * q == c * (p * q) + d * q
  {
  }

  lemma MulAssoc1(c: int, m: int)
    ensures (c + 1) * m == c * m + m
  {
  }

  lemma SmallMod(x: nat, m: nat)
    requires x < m
    ensures x % m == x
  {
  }

  // ----- products, quotients and remainders the solver does not look into -----

  /** `a * b` */
  function Times(a: nat, b: nat): nat {
    if a == 0 then 0 else Times(a - 1, b) + b
  }

  lemma {:induction false} TimesIs(a: nat, b: nat)
    ensures Times(a, b) == a * b
  {
    if a > 0 { TimesIs(a - 1, b); }
  }

  lemma {:induction false} TimesMono(a: nat, c: nat, b: nat)
    requires a <= c
    ensures Times(a, b) <= Times(c, b)
  {
    if a < c { TimesMono(a, c - 1, b); }
  }

  /** `a / d` */
  function Quot(a: nat, d: nat): nat
    requires d > 0
  {
    if a < d then 0 else 1 + Quot(a - d, d)
  }

  /** `a % d` */
  function Rem(a: nat, d: nat): nat
    requires d > 0
  {
    if a < d then a else Rem(a - d, d)
  }

  lemma {:induction false} QuotRem(a: nat, d: nat)
    requires d > 0
    ensures a == Times(Quot(a, d), d) + Rem(a, d) && Rem(a, d) < d
  {
    if a >= d { QuotRem(a - d, d); }
  }

  lemma {:induction false} QuotOf(q: nat, d: nat, i: nat)
    requires i < d
    ensures Quot(Times(q, d) + i, d) == q && Rem(Times(q, d) + i, d) == i
  {
    if q > 0 { QuotOf(q - 1, d, i); }
  }

  lemma QuotIs(a: nat, d: nat)
    requires d > 0
    ensures Quot(a, d) == a / d && Rem(a, d) == a % d
  {
    QuotRem(a, d);
    TimesIs(Quot(a, d), d);
    MulAssoc1(Quot(a, d), d);
    DivUnique(a, d, Quot(a, d));
  }
}
