/**
 Integer facts used by the quorum topology: powers, Euclidean division and the
 checked and saturating operations of a 64-bit `usize`.
 */
module Arithmetic {
  import opened Wrappers

  const U64_MAX: nat := 0xFFFF_FFFF_FFFF_FFFF

  /** Largest `usize` of a 64-bit target. */
  const USIZE_MAX: nat := U64_MAX

  function CheckedMul(a: nat, b: nat): Option<nat> {
    if a * b <= USIZE_MAX then Some(a * b) else None
  }

  function CheckedAdd(a: nat, b: nat): Option<nat> {
    if a + b <= USIZE_MAX then Some(a + b) else None
  }

  function UnwrapOr(o: Option<nat>, d: nat): nat {
    match o
    case Some(v) => v
    case None => d
  }

  function SaturatingAdd(a: nat, b: nat): nat {
    if a + b <= USIZE_MAX then a + b else USIZE_MAX
  }

  function SaturatingSub(a: nat, b: nat): nat {
    if a >= b then a - b else 0
  }

  function Pow(base: nat, exponent: nat): nat {
    if exponent == 0 then 1 else base * Pow(base, exponent - 1)
  }

  lemma {:induction false} PowPositive(b: nat, e: nat)
    requires b >= 1
    ensures Pow(b, e) >= 1
  {
    if e > 0 {
      PowPositive(b, e - 1);
      MulMono(1, b, Pow(b, e - 1));
    }
  }

  lemma {:induction false} PowMono(b: nat, i: nat, j: nat)
    requires b >= 1 && i <= j
    ensures Pow(b, i) <= Pow(b, j)
    decreases j
  {
    if i < j {
      PowMono(b, i, j - 1);
      MulMono(1, b, Pow(b, j - 1));
    }
  }

  /** `b^j` is a multiple of `b^i` when `i <= j`. */
  lemma {:induction false} PowSplit(b: nat, i: nat, j: nat)
    requires i <= j
    ensures Pow(b, j) == Pow(b, i) * Pow(b, j - i)
    decreases i
  {
    if i > 0 {
      PowSplit(b, i - 1, j - 1);
      assert Pow(b, j) == b * (Pow(b, i - 1) * Pow(b, j - i));
      MulAssoc(b, Pow(b, i - 1), Pow(b, j - i));
    }
  }

  lemma {:induction false} MulMono(a: int, b: int, c: int)
    requires a <= b && 0 <= c
    ensures a * c <= b * c
  {
  }

  lemma {:induction false} MulAssoc(a: int, b: int, c: int)
    ensures a * (b * c) == (a * b) * c
  {
  }

  lemma {:induction false} DivMod(a: int, d: int)
    requires d > 0
    ensures a == d * (a / d) + a % d
    ensures 0 <= a % d < d
  {
  }

  /** Quotient and remainder are unique. */
  lemma {:induction false} DivModUnique(a: int, d: int, k: int, c: int)
    requires d > 0 && a == d * k + c && 0 <= c < d
    ensures a / d == k && a % d == c
  {
    DivMod(a, d);
    var t := a / d;
    assert d * (t - k) == c - a % d;
    if t > k {
      MulMono(1, t - k, d);
    } else if t < k {
      MulMono(t - k, -1, d);
    }
  }

  /** Dividing twice is dividing by the product. */
  lemma {:induction false} DivDiv(a: nat, x: nat, y: nat)
    requires x > 0 && y > 0
    ensures x * y > 0
    ensures (a / x) / y == a / (x * y)
  {
    MulMono(1, x, y);
    DivMod(a, x);
    DivMod(a / x, y);
    var k, j, d := (a / x) / y, (a / x) % y, a % x;
    assert a == x * (y * k + j) + d;
    assert x * (y * k + j) == x * y * k + x * j by {
      MulAssoc(x, y, k);
    }
    MulMono(j, y - 1, x);
    DivModUnique(a, x * y, k, x * j + d);
  }

  /** `a % (x * y)` keeps the residue modulo `x`. */
  lemma {:induction false} ModMod(a: nat, x: nat, y: nat)
    requires x > 0 && y > 0
    ensures x * y > 0
    ensures (a % (x * y)) % x == a % x
  {
    MulMono(1, x, y);
    DivMod(a, x * y);
    var k, c := a / (x * y), a % (x * y);
    DivMod(c, x);
    MulAssoc(x, y, k);
    assert a == x * (y * k + c / x) + c % x;
    DivModUnique(a, x, y * k + c / x, c % x);
  }
}
