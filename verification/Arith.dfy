/** Products and quotients by a variable. The drivers divide by block and group sizes that are
    known only at run time; written as repeated addition and subtraction, such terms stay linear
    for the solver. `TimesIs` and `QuotIs` say that they are the ordinary operators. */
module Arith {

  function Times(m: nat, n: nat): nat {
    if n == 0 then 0 else Times(m, n - 1) + m
  }

  function Quot(m: nat, k: nat): nat
    requires 0 < m
  {
    if k < m then 0 else Quot(m, k - m) + 1
  }

  function Rem(m: nat, k: nat): (r: nat)
    requires 0 < m
    ensures r < m
  {
    if k < m then k else Rem(m, k - m)
  }

  lemma Distribute(a: int, b: int, m: int)
    ensures (a + b) * m == a * m + b * m
  {
  }

  lemma {:induction false} TimesIs(m: nat, n: nat)
    ensures Times(m, n) == m * n
  {
    if n > 0 {
      TimesIs(m, n - 1);
      Distribute(n - 1, 1, m);
    }
  }

  lemma {:induction false} Split(m: nat, k: nat)
    requires 0 < m
    ensures k == Times(m, Quot(m, k)) + Rem(m, k)
  {
    if k >= m { Split(m, k - m); }
  }

  lemma {:induction false} Join(m: nat, n: nat, i: nat)
    requires i < m
    ensures Quot(m, Times(m, n) + i) == n && Rem(m, Times(m, n) + i) == i
  {
    if n > 0 { Join(m, n - 1, i); }
  }

  lemma {:induction false} TimesOrder(m: nat, g: nat, h: nat)
    requires g < h
    ensures Times(m, g) + m <= Times(m, h)
  {
    if g < h - 1 { TimesOrder(m, g, h - 1); }
  }

  lemma {:induction false} TimesAdd(m: nat, a: nat, b: nat)
    ensures Times(m, a + b) == Times(m, a) + Times(m, b)
  {
    if b > 0 { TimesAdd(m, a, b - 1); }
  }

  lemma {:induction false} TimesAssoc(m: nat, n: nat, a: nat)
    ensures Times(m, Times(n, a)) == Times(Times(m, n), a)
  {
    if a > 0 {
      TimesAssoc(m, n, a - 1);
      TimesAdd(m, Times(n, a - 1), n);
    }
  }

  lemma QuotBound(m: nat, k: nat, n: nat)
    requires 0 < m
    ensures Quot(m, k) < n <==> k < Times(m, n)
  {
    Split(m, k);
    if Quot(m, k) < n {
      TimesOrder(m, Quot(m, k), n);
    } else if n < Quot(m, k) {
      TimesOrder(m, n, Quot(m, k));
    }
  }

  lemma MulMonotone(a: nat, b: nat, m: nat)
    requires a <= b
    ensures a * m <= b * m
  {
  }

  lemma QuotIs(m: nat, k: nat)
    requires 0 < m
    ensures k / m == Quot(m, k) && k % m == Rem(m, k)
  {
    Split(m, k);
    TimesIs(m, Quot(m, k));
    QuotUnique(k, m, Quot(m, k), Rem(m, k), k / m, k % m);
  }

  lemma QuotUnique(k: nat, m: nat, a: nat, r: nat, b: nat, s: nat)
    requires k == m * a + r && k == m * b + s && r < m && s < m
    ensures a == b && r == s
  {
    if a < b {
      MulMonotone(a + 1, b, m);
      Distribute(a, 1, m);
    } else if b < a {
      MulMonotone(b + 1, a, m);
      Distribute(b, 1, m);
    }
  }
}
