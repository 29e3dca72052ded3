/** Minimum, and facts about integer division by a positive divisor. */
module Arithmetic {
  function Min(a: int, b: int): int {
    if a <= b then a else b
  }

  lemma MulMono(a: int, b: int, c: int)
    ensures a <= b && 0 <= c ==> a * c <= b * c
  {
  }

  lemma MulAdd(a: int, b: int, c: int)
    ensures (a + b) * c == a * c + b * c
  {
  }

  lemma DivUnique(a: int, b: nat, q: int)
    requires b > 0 && q * b <= a < (q + 1) * b
    ensures a / b == q
  {
    var k := a / b;
    assert k * b <= a < (k + 1) * b;
    MulMono(k + 1, q, b);
    MulMono(q + 1, k, b);
  }

  /** Division rounding up, counted one divisor at a time. */
  function CeilDiv(a: nat, b: nat): (n: nat)
    requires b > 0
    ensures n == 0 <==> a == 0
  {
    if a == 0 then 0
    else if a <= b then 1
    else 1 + CeilDiv(a - b, b)
  }

  lemma {:induction false} CeilDivRoundsUp(a: nat, b: nat)
    requires b > 0
    ensures a <= CeilDiv(a, b) * b < a + b
    ensures CeilDiv(a, b) == (a + b - 1) / b
  {
    CeilDivCovers(a, b);
    MulAdd(CeilDiv(a, b), 1, b);
    DivUnique(a + b - 1, b, CeilDiv(a, b));
  }

  lemma {:induction false} CeilDivCovers(a: nat, b: nat)
    requires b > 0
    ensures a <= CeilDiv(a, b) * b < a + b
  {
    if a > b {
      CeilDivCovers(a - b, b);
      MulAdd(CeilDiv(a - b, b), 1, b);
    }
  }

  /** The whole number nearest to a fraction; of two equally near, the even one. */
  function Nearest(a: nat, b: nat): nat
    requires b > 0
  {
    var q, r := a / b, a % b;
    if 2 * r < b || (2 * r == b && q % 2 == 0) then q else q + 1
  }

  lemma NearestIsNear(a: nat, b: nat)
    requires b > 0
    ensures 2 * a - b <= 2 * (Nearest(a, b) * b) <= 2 * a + b
  {
    var q, r := a / b, a % b;
    assert a == q * b + r;
    MulAdd(q, 1, b);
  }

  /** Whole divisors can be taken out before or after dividing. */
  lemma DivShift(a: int, b: nat, k: int)
    requires b > 0
    ensures (a - k * b) / b == a / b - k
  {
    var q := a / b;
    assert q * b <= a < (q + 1) * b;
    assert (q - k) * b == q * b - k * b && (q - k + 1) * b == (q + 1) * b - k * b;
    DivUnique(a - k * b, b, q - k);
  }

  lemma DivMono(a: int, c: int, b: nat)
    requires b > 0 && a <= c
    ensures a / b <= c / b
  {
    var p, q := a / b, c / b;
    assert p * b <= a && c < (q + 1) * b;
    MulMono(q + 1, p, b);
  }

  /** `n` fits `k` times into `a` exactly when the quotient is at least `k`. */
  lemma DivAtLeast(a: int, b: nat, k: int)
    requires b > 0
    ensures k * b <= a <==> k <= a / b
  {
    var q := a / b;
    assert q * b <= a < (q + 1) * b;
    MulMono(k, q, b);
    MulMono(q + 1, k, b);
  }
}
