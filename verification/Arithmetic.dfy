// Division and remainder facts used for alignment, address slicing and byte encodings.
module Arithmetic {

  lemma MulBound(s: int, d: int)
    requires s >= 0
    ensures d >= 1 ==> s * d >= s
    ensures d <= -1 ==> s * d <= -s
  {
    if d >= 1 {
      assert s * d == s + s * (d - 1);
    } else if d <= -1 {
      assert s * d == -s + s * (d + 1);
    }
  }

  // Quotient and remainder are unique.
  lemma DivModUnique(x: int, b: int, q: int, r: int)
    requires b > 0 && 0 <= r < b && x == q * b + r
    ensures x / b == q && x % b == r
  {
    var d := x / b - q;
    assert b * d == r - x % b by {
      assert b * d == b * (x / b) - b * q;
    }
    MulBound(b, d);
  }

  // Adding a multiple of s changes no remainder, and a multiple of s below q * s leaves room for s more.
  lemma AddMultiple(x: nat, q: nat, s: nat)
    requires s >= 1
    ensures (x + q * s) % s == x % s
    ensures x % s == 0 && x < q * s ==> x + s <= q * s
  {
    assert x + q * s == (x / s + q) * s + x % s;
    DivModUnique(x + q * s, s, x / s + q, x % s);
    assert s * (q - x / s) == q * s - s * (x / s);
    MulBound(s, q - x / s);
  }

  // Cutting a number at a * b and at a: the two-digit reading of x % (a * b).
  lemma TwoDigits(x: nat, a: nat, b: nat)
    requires a > 0 && b > 0
    ensures a * b > 0
    ensures x / (a * b) == x / a / b
    ensures x % (a * b) == x / a % b * a + x % a
    ensures x % (a * b) / a == x / a % b
    ensures x % (a * b) % a == x % a
  {
    var q, r := x / a, x % a;
    TwoDigitSum(q / b, q % b, r, a, b);
    assert x == q * a + r && q == q / b * b + q % b;
    DivModUnique(x, a * b, q / b, q % b * a + r);
    DivModUnique(q % b * a + r, a, q % b, r);
  }

  // Two digits and what stands above them.
  lemma TwoDigitSum(high: nat, mid: nat, low: nat, a: nat, b: nat)
    requires mid < b && low < a
    ensures (high * b + mid) * a + low == high * (a * b) + (mid * a + low)
    ensures 0 <= mid * a + low < a * b
  {
    assert (high * b + mid) * a == high * (a * b) + mid * a;
    assert a * (b - mid) == a * b - mid * a;
    MulBound(a, b - mid);
  }
}
