// Multiplication and division facts the solver is slow to find unaided.
module Arithmetic {

  function Min(x: int, y: int): int { if x <= y then x else y }

  function Max(x: int, y: int): int { if x >= y then x else y }

  lemma DivCompare(a: real, b: real, c: real)
    requires b > 0.0
    ensures a / b <= c <==> a <= c * b
    ensures a / b >= c <==> a >= c * b
    ensures a / b == c <==> a == c * b
  {
    var q := a / b;
    assert q * b == a;
    MulCompare(q, c, b);
  }

  lemma MulCompare(x: real, y: real, b: real)
    requires b > 0.0
    ensures x <= y <==> x * b <= y * b
    ensures x >= y <==> x * b >= y * b
  {
    if x < y { assert (y - x) * b > 0.0; assert (y - x) * b == y * b - x * b; }
    if y < x { assert (x - y) * b > 0.0; assert (x - y) * b == x * b - y * b; }
  }

  lemma MulMono(x: int, y: int, z: int)
    requires x <= y && z >= 0
    ensures x * z <= y * z
  {
    assert (y - x) * z >= 0;
    assert (y - x) * z == y * z - x * z;
  }

  // The sum is a parameter so that callers need no rewriting under the product.
  lemma Distribute(x: int, y: int, sum: int, z: int)
    requires sum == x + y
    ensures sum * z == x * z + y * z
    ensures z * sum == z * x + z * y
  {
  }

  lemma RealDistribute(x: real, y: real, sum: real, z: real)
    requires sum == x + y
    ensures sum * z == x * z + y * z
  {
  }

  lemma RealProduct(x: int, y: int)
    ensures (x * y) as real == x as real * y as real
  {
  }
}
