/** Facts about products and Euclidean remainders that the solver does not find by itself. */
module Arithmetic {
  function Abs(x: int): nat {
    if x < 0 then -x else x
  }

  lemma AbsTimes(x: int, y: int)
    ensures Abs(x * y) == Abs(x) * Abs(y)
  {
    if x >= 0 && y >= 0 {
      assert x * y >= 0;
    } else if x >= 0 {
      assert x * y == -(x * -y) && x * -y >= 0;
    } else if y >= 0 {
      assert x * y == -(-x * y) && -x * y >= 0;
    } else {
      assert x * y == -x * -y >= 0;
    }
  }

  lemma ProductAtLeast(k: nat, n: nat)
    ensures n > 0 ==> k * n >= k
  {
    if n > 0 {
      assert k * n == k + k * (n - 1) && k * (n - 1) >= 0;
    }
  }

  lemma SmallMultiple(m: int, d: int)
    requires Abs(m * d) < Abs(m)
    ensures d == 0
  {
    AbsTimes(m, d);
    ProductAtLeast(Abs(m), Abs(d));
  }

  lemma RemainderUnique(a: int, m: int, q: int, r: int)
    requires m != 0 && a == m * q + r && 0 <= r < Abs(m)
    ensures a % m == r
  {
    var d := q - a / m;
    assert a == m * (a / m) + a % m;
    assert m * d == m * q - m * (a / m);
    SmallMultiple(m, d);
  }
}
