/** Multiplication and division facts that the solver needs spelled out.  `Product` names a
    multiplication so that a proof can treat it as a whole. */
module Arithmetic {
  import opened Bytes

  function Product(a: nat, b: nat): nat {
    a * b
  }

  function Quotient(a: u64, n: nat): (q: u64)
    requires n > 0
  {
    QuotientBound(a, n);
    a / n
  }

  lemma QuotientBound(a: nat, n: nat)
    requires n > 0
    ensures 0 <= a / n <= a
    ensures Product(n, a / n) <= a < Product(n, a / n) + n
  {
    assert a == n * (a / n) + a % n;
    Mono(a / n, 1, n);
  }

  lemma Mono(n: nat, p: nat, q: nat)
    requires p <= q
    ensures Product(n, p) <= Product(n, q) && Product(p, n) <= Product(q, n)
  {
  }

  lemma Distribute(n: nat, p: nat, q: nat)
    ensures Product(n, p + q) == Product(n, p) + Product(n, q)
    ensures Product(n, p) == Product(p, n) && Product(n, 1) == n
  {
  }

  lemma Cancel(n: nat, p: nat, q: nat)
    requires n > 0 && Product(n, p) < Product(n, q) + n
    ensures p <= q
  {
    Distribute(n, q, 1);
    if p > q {
      Mono(n, q + 1, p);
      assert false;
    }
  }

  lemma QuotientIs(a: nat, n: nat, q: nat)
    requires n > 0 && Product(n, q) <= a < Product(n, q) + n
    ensures a / n == q
  {
    QuotientBound(a, n);
    hide Product;
    Cancel(n, a / n, q);
    Cancel(n, q, a / n);
  }

  lemma DivUpper(y: nat, max: nat, n: nat)
    requires n > 0 && y <= Product(max, n)
    ensures y / n <= max
  {
    QuotientBound(y, n);
    Distribute(max, n, 0);
    hide Product;
    Cancel(n, y / n, max);
  }

  lemma DivLower(y: nat, min: nat, n: nat)
    requires n > 0 && Product(min, n) <= y
    ensures min <= y / n
  {
    QuotientBound(y, n);
    Distribute(min, n, 0);
    hide Product;
    Cancel(n, min, y / n);
  }

  lemma AtLeastIff(y: nat, min: nat, n: nat)
    requires n > 0
    ensures min <= y / n <==> Product(n, min) <= y
  {
    QuotientBound(y, n);
    Distribute(min, n, 0);
    if Product(n, min) <= y {
      DivLower(y, min, n);
    }
    if min <= y / n {
      Mono(n, min, y / n);
    }
  }

  /** Dividing twice is dividing by the product. */
  lemma DivideTwice(a: nat, m: nat, n: nat)
    requires m > 0 && n > 0
    ensures Product(m, n) > 0 && a / m / n == a / Product(m, n)
  {
    var q := a / m / n;
    QuotientBound(a, m);
    QuotientBound(a / m, n);
    assert Product(m, Product(n, q)) == Product(Product(m, n), q);
    Distribute(m, Product(n, q), n);
    Mono(m, Product(n, q), a / m);
    Mono(m, a / m + 1, Product(n, q) + n);
    Distribute(m, a / m, 1);
    Mono(m, 1, n);
    Distribute(m, 1, 0);
    hide Product;
    QuotientIs(a, Product(m, n), q);
  }
}
