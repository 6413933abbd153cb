/** Products and quotients for the address arithmetic. `Mul` is the product and `Div` and `Mod` are
    quotient and remainder (the lemmas at the end say so); they are defined by counting, so that a proof
    uses only the facts it names. */
module Arith {

  function Mul(a: nat, b: nat): nat {
    if a == 0 then 0 else Mul(a - 1, b) + b
  }

  lemma {:induction false} MulMono(a: nat, b: nat, c: nat)
    requires a <= b
    ensures Mul(a, c) <= Mul(b, c)
  {
    if a < b {
      MulMono(a, b - 1, c);
    }
  }

  lemma {:induction false} Distrib(a: nat, b: nat, c: nat)
    ensures Mul(a + b, c) == Mul(a, c) + Mul(b, c)
  {
    if b > 0 {
      Distrib(a, b - 1, c);
    }
  }

  lemma MulZero(b: nat)
    ensures Mul(0, b) == 0
  {
  }

  lemma MulSucc(a: nat, b: nat)
    ensures Mul(a + 1, b) == Mul(a, b) + b
  {
  }

  /** Runs of sectors that lie apart have bytes that lie apart. */
  lemma MulApart(p: nat, n: nat, q: nat, c: nat)
    requires p + n <= q
    ensures Mul(p, c) + Mul(n, c) <= Mul(q, c)
  {
    Distrib(p, n, c);
    MulMono(p + n, q, c);
  }

  lemma MulLess(a: nat, b: nat, c: nat)
    requires Mul(a, c) < Mul(b, c)
    ensures a < b
  {
    if b <= a {
      MulMono(b, a, c);
    }
  }

  lemma {:induction false} MulInjective(a: nat, b: nat, c: nat)
    requires c > 0 && Mul(a, c) == Mul(b, c)
    ensures a == b
  {
    if a > 0 && b > 0 {
      MulInjective(a - 1, b - 1, c);
    }
  }

  lemma {:induction false} MulAssoc(a: nat, b: nat, c: nat)
    ensures Mul(Mul(a, b), c) == Mul(a, Mul(b, c))
  {
    if a > 0 {
      MulAssoc(a - 1, b, c);
      Distrib(Mul(a - 1, b), b, c);
    }
  }

  function Div(a: nat, n: nat): nat
    requires n > 0
  {
    if a < n then 0 else Div(a - n, n) + 1
  }

  function Mod(a: nat, n: nat): (r: nat)
    requires n > 0
    ensures r < n
  {
    if a < n then a else Mod(a - n, n)
  }

  lemma {:induction false} DivMod(a: nat, n: nat)
    requires n > 0
    ensures a == Mul(Div(a, n), n) + Mod(a, n)
  {
    if a >= n {
      DivMod(a - n, n);
    }
  }

  /** Quotient and remainder are unique. */
  lemma {:induction false} DivModUnique(q: nat, n: nat, r: nat)
    requires r < n
    ensures Div(Mul(q, n) + r, n) == q && Mod(Mul(q, n) + r, n) == r
  {
    if q > 0 {
      DivModUnique(q - 1, n, r);
    }
  }

  lemma {:induction false} MulIsProduct(a: nat, b: nat)
    ensures Mul(a, b) == a * b
  {
    if a > 0 {
      MulIsProduct(a - 1, b);
    }
  }

  lemma ProductMono(a: int, b: int, c: nat)
    requires a <= b
    ensures a * c <= b * c
  {
  }

  lemma QuotientUnique(a: int, n: nat, q: int, r: int)
    requires n > 0 && 0 <= r < n && a == q * n + r
    ensures a / n == q && a % n == r
  {
    var q', r' := a / n, a % n;
    assert a == q' * n + r' && 0 <= r' < n;
    if q < q' {
      ProductMono(q + 1, q', n);
    } else if q' < q {
      ProductMono(q' + 1, q, n);
    }
  }

  lemma DivModAreQuotientAndRemainder(a: nat, n: nat)
    requires n > 0
    ensures Div(a, n) == a / n && Mod(a, n) == a % n
  {
    DivMod(a, n);
    MulIsProduct(Div(a, n), n);
    QuotientUnique(a, n, Div(a, n), Mod(a, n));
  }

  /** Twice (four times) a number, divided by twice (four times) another. */
  lemma {:induction false} ModTwice(a: nat, h: nat)
    requires h > 0
    ensures Mod(2 * a, 2 * h) == 2 * Mod(a, h)
  {
    if a >= h {
      ModTwice(a - h, h);
    }
  }

  /** Splitting a byte address at sector `start` into sector and offset loses nothing. */
  lemma SplitAddress(start: nat, pos: nat, n: nat)
    requires n > 0
    ensures Mul(start + Div(pos, n), n) + Mod(pos, n) == Mul(start, n) + pos
  {
    Distrib(start, Div(pos, n), n);
    DivMod(pos, n);
  }

  lemma DivMono(a: nat, b: nat, n: nat)
    requires n > 0 && a <= b
    ensures Div(a, n) <= Div(b, n)
  {
    DivMod(a, n);
    DivMod(b, n);
    MulSucc(Div(b, n), n);
    if Div(b, n) < Div(a, n) {
      MulMono(Div(b, n) + 1, Div(a, n), n);
    }
  }
}
