/** Facts about quotients that the solver does not find by itself. */
module Arithmetic {
  function Power(base: nat, exponent: nat): (p: nat)
    ensures base > 0 ==> p > 0
  {
    if exponent == 0 then 1 else base * Power(base, exponent - 1)
  }

  lemma {:induction false} PowerAdds(base: nat, a: nat, b: nat)
    ensures Power(base, a + b) == Power(base, a) * Power(base, b)
  {
    if a > 0 {
      PowerAdds(base, a - 1, b);
      TimesAssociates(base, Power(base, a - 1), Power(base, b));
    }
  }

  lemma {:induction false} TimesAssociates(a: nat, b: nat, c: nat)
    ensures a * (b * c) == (a * b) * c
  {
  }

  // Half the range of a signed integer, by its width.
  lemma {:induction false} WidthPowers()
    ensures Power(2, 7) == 0x80 && Power(2, 15) == 0x8000 && Power(2, 31) == 0x8000_0000
    ensures Power(2, 63) == 0x8000_0000_0000_0000
  {
    assert Power(2, 3) == 8;
    PowerAdds(2, 3, 4);
    assert Power(2, 4) == 16;
    PowerAdds(2, 4, 4);
    PowerAdds(2, 7, 8);
    PowerAdds(2, 8, 8);
    PowerAdds(2, 15, 16);
    PowerAdds(2, 16, 16);
    PowerAdds(2, 31, 32);
  }

  lemma {:induction false} TimesGrows(d: nat, x: int, y: int)
    requires x < y
    ensures d * x + d <= d * y
  {
    assert d * y == d * (x + 1) + d * (y - x - 1);
  }

  lemma {:induction false} QuotientIs(b: nat, d: nat, x: nat, r: nat)
    requires d > 0 && b == d * x + r && r < d
    ensures b / d == x
  {
    var q := b / d;
    assert b == d * q + b % d;
    if q < x {
      TimesGrows(d, q, x);
    } else if x < q {
      TimesGrows(d, x, q);
    }
  }
}
