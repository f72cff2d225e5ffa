/** Whole-number division, one fact at a time: the products are kept out of the solver's way. */
module FloorDivision {

  function CeilDiv(a: nat, b: nat): nat
    requires b > 0
  {
    (a + b - 1) / b
  }

  lemma MulMono(a: nat, b: nat, c: nat)
    requires a <= b
    ensures a * c <= b * c
  {
  }

  lemma Distributes(a: int, b: int, c: int)
    ensures (a + b) * c == a * c + b * c
  {
  }

  lemma DivBounds(a: nat, b: nat)
    requires b > 0
    ensures a == a / b * b + a % b && 0 <= a % b < b
    ensures a / b >= 0
  {
  }

  lemma DivIs(a: nat, b: nat, q: nat)
    requires b > 0 && q * b <= a < q * b + b
    ensures a / b == q
  {
    DivBounds(a, b);
    Distributes(q, 1, b);
    Distributes(a / b, 1, b);
    if a / b > q {
      MulMono(q + 1, a / b, b);
    }
    if a / b < q {
      MulMono(a / b + 1, q, b);
    }
  }

  lemma DivMono(a: nat, b: nat, c: nat)
    requires a <= b && c > 0
    ensures a / c <= b / c
  {
    DivBounds(a, c);
    DivBounds(b, c);
    Distributes(b / c, 1, c);
    if a / c > b / c {
      MulMono(b / c + 1, a / c, c);
    }
  }

  lemma DivSum(a: nat, b: nat, c: nat, q: nat, r: nat, p: nat, s: nat)
    requires a == q * c + r && b == p * c + s && r < c && s < c
    ensures (a + b) / c == q + p || (a + b) / c == q + p + 1
  {
    Distributes(q, p, c);
    Distributes(q + p, 1, c);
    DivIs(a + b, c, if r + s < c then q + p else q + p + 1);
  }

  lemma DivSplits(a: nat, b: nat, c: nat)
    requires c > 0
    ensures a / c + b / c <= (a + b) / c <= a / c + b / c + 1
  {
    DivBounds(a, c);
    DivBounds(b, c);
    DivSum(a, b, c, a / c, a % c, b / c, b % c);
  }

  lemma DivDivIs(a: nat, b: nat, c: nat, p: nat, r: nat, q: nat, s: nat)
    requires a == p * b + r && r < b && p == q * c + s && s < c
    ensures b * c > 0 && a / (b * c) == q
  {
    MulMono(1, c, b);
    MulMono(s + 1, c, b);
    Distributes(s, 1, b);
    Distributes(q * c, s, b);
    assert q * c * b == q * (b * c);
    DivIs(a, b * c, q);
  }

  // Dividing twice is dividing by the product.
  lemma DivDiv(a: nat, b: nat, c: nat)
    requires b > 0 && c > 0
    ensures b * c > 0 && a / b / c == a / (b * c)
  {
    DivBounds(a, b);
    DivBounds(a / b, c);
    DivDivIs(a, b, c, a / b, a % b, a / b / c, a / b % c);
  }

  lemma DivBelow(a: nat, b: nat, bound: nat)
    requires b > 0
    ensures a / b < bound <==> a < bound * b
  {
    DivBounds(a, b);
    Distributes(a / b, 1, b);
    if a / b < bound {
      MulMono(a / b + 1, bound, b);
    } else {
      MulMono(bound, a / b, b);
    }
  }

  lemma CeilDivIs(a: nat, b: nat)
    requires b > 0
    ensures a <= CeilDiv(a, b) * b < a + b
  {
    DivBounds(a + b - 1, b);
  }

  lemma CeilDivMono(a: nat, b: nat, c: nat)
    requires a <= b && c > 0
    ensures CeilDiv(a, c) <= CeilDiv(b, c)
  {
    DivMono(a + c - 1, b + c - 1, c);
  }

  lemma ModAdvances(t: nat, d: nat, m: nat)
    requires m > 0
    ensures (t + d) % m == (t % m + d) % m
    ensures t % m + d < m ==> (t + d) % m == t % m + d
  {
    var r := t % m + d;
    DivBounds(t, m);
    DivBounds(r, m);
    DivBounds(t + d, m);
    Distributes(t / m, r / m, m);
    DivIs(t + d, m, t / m + r / m);
    if r < m {
      DivIs(r, m, 0);
    }
  }

  lemma ModMod(n: nat, a: nat, b: nat, k: nat)
    requires b > 0 && k > 0 && a == k * b
    ensures a > 0 && n % a % b == n % b
  {
    MulMono(1, k, b);
    DivBounds(n, a);
    DivBounds(n % a, b);
    var q, p := n / a, n % a / b;
    assert q * k * b == q * a;
    Distributes(q * k, p, b);
    DivIs(n, b, q * k + p);
    DivBounds(n, b);
  }
}
