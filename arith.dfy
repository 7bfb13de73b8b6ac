/** Facts about natural division and multiplication that the index arithmetic relies on. */
module Arith {
  lemma DivMod(j: nat, g: nat)
    requires g > 0
    ensures j == (j / g) * g + j % g && 0 <= j % g < g
  {
  }

  lemma MulMono(x: nat, y: nat, g: nat)
    requires x <= y
    ensures x * g <= y * g
  {
    assert y * g == x * g + (y - x) * g;
  }

  lemma Distribute(a: nat, b: nat, g: nat)
    ensures (a + b) * g == a * g + b * g
  {
  }

  /** Division by `g` is determined by any decomposition `n == a * g + b` with `b < g`. */
  lemma DivUnique(n: nat, g: nat, a: nat, b: nat)
    requires g > 0 && b < g && n == a * g + b
    ensures n / g == a && n % g == b
  {
    DivMod(n, g);
    var a', b' := n / g, n % g;
    if a' < a {
      MulMono(a' + 1, a, g);
      assert false;
    } else if a' > a {
      MulMono(a + 1, a', g);
      assert false;
    }
  }

  lemma MultipleDiv(q: nat, g: nat)
    requires g > 0
    ensures (q * g) / g == q && (q * g) % g == 0
  {
    DivUnique(q * g, g, q, 0);
  }

  /** A lower bound on the product bounds the quotient from below. */
  lemma DivAtLeast(n: nat, g: nat, q: nat)
    requires g > 0 && n >= q * g
    ensures n / g >= q
  {
    var a, b := n / g, n % g;
    assert n == a * g + b;
    if a < q {
      MulMono(a + 1, q, g);
      assert false;
    }
  }
}
