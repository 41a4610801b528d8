/** The two integer helpers of the header: Kernighan's population count and
    exponentiation by repeated squaring.  Both are loops over local
    variables, so both are methods proved against a specification function:
    `Bits.PopCount` for the first, `Power` below for the second. */
module Detail {
  import opened Bits

  /** `b^e` by its definition, the reference `Pow` is proved against. */
  function Power(b: int, e: nat): int
  {
    if e == 0 then 1 else b * Power(b, e - 1)
  }

  lemma {:induction false} PowerAdd(b: int, m: nat, n: nat)
    ensures Power(b, m + n) == Power(b, m) * Power(b, n)
    decreases m
  {
    if m > 0 {
      PowerAdd(b, m - 1, n);
    }
  }

  /** Squaring the base doubles the exponent. */
  lemma {:induction false} PowerSquare(b: int, k: nat)
    ensures Power(b * b, k) == Power(b, 2 * k)
    decreases k
  {
    if k > 0 {
      PowerSquare(b, k - 1);
      PowerAdd(b, 2, 2 * k - 2);
    }
  }

  /** One step of the loop: `b^e` is `(b*b)^(e/2)`, times `b` when `e` is odd. */
  lemma HalveExponent(b: int, e: nat)
    ensures Power(b, e) == Power(b * b, e / 2) * (if e % 2 == 1 then b else 1)
  {
    PowerSquare(b, e / 2);
    if e % 2 == 1 {
      PowerAdd(b, 2 * (e / 2), 1);
    }
  }

  /** `1^e == 1` */
  lemma {:induction false} PowerOne(e: nat)
    ensures Power(1, e) == 1
  {
    if e > 0 {
      PowerOne(e - 1);
    }
  }

  /** `count_set_bits`: clears the lowest 1-bit until the word is zero and
      counts the steps.  The count is the number of 1-bits of the word, and
      zero exactly for the zero word. */
  method CountSetBits(val: Word) returns (count: int)
    ensures count == PopCount(val)
    ensures count == 0 <==> val == 0
    ensures 0 <= count <= 64
  {
    count := 0;
    var v: Word := val;
    while v != 0
      invariant count + PopCount(v) == PopCount(val)
      invariant 0 <= count
      decreases v
    {
      ClearLowestCount(v);
      v := And(v, v - 1);
      count := count + 1;
    }
    assert Elements(0) == {} by { ZeroIffEmpty(0); }
    ZeroIffEmpty(val);
    SubsetOfBelowSize(Elements(val), 64);
  }

  /** `pow`: -1 for a negative base or exponent, 0 for a zero base (even with a
      zero exponent), and otherwise `b^e`.  The loop keeps `y * b^e` equal to
      the original power and stops with `e == 1`, so `b * y` is the answer. */
  method Pow(b: int, e: int) returns (r: int)
    ensures b < 0 || e < 0 ==> r == -1
    ensures b >= 0 && e >= 0 && b == 0 ==> r == 0
    ensures b > 0 && e >= 0 ==> r == Power(b, e)
    ensures b > 0 && e >= 0 && (e == 0 || b == 1) ==> r == 1
  {
    if b < 0 || e < 0 {
      return -1;
    }
    if b == 0 {
      return 0;
    }
    if e == 0 || b == 1 {
      if b == 1 {
        PowerOne(e);
      }
      return 1;
    }
    var y := 1;
    var base := b;
    var exp := e;
    while exp > 1
      invariant exp >= 1
      invariant y * Power(base, exp) == Power(b, e)
    {
      HalveExponent(base, exp);
      if exp % 2 == 1 {
        y := y * base;
      }
      base := base * base;
      exp := exp / 2;
    }
    r := base * y;
  }
}
