/** The rounding that the allocators share: ALIGN of include/linux/kernel.h:46-49 and the
    masks `x & ~(a - 1)`, for any positive alignment (the source's are powers of two). */
module Align {

  lemma MulNonNeg(a: nat, d: nat)
    ensures a * d >= 0
  {
  }

  lemma MulAtLeast(a: int, d: int)
    requires d > 0
    ensures a >= 1 ==> a * d >= d
    ensures a <= -1 ==> a * d <= -d
  {
    if a >= 1 {
      assert (a - 1) * d >= 0 by { MulNonNeg(a - 1, d); }
      assert a * d == (a - 1) * d + d;
    } else if a <= -1 {
      assert (-a - 1) * d >= 0 by { MulNonNeg(-a - 1, d); }
      assert (-a - 1) * d == -(a * d) - d;
    }
  }

  lemma DivModUnique(x: int, q: int, r: int, d: int)
    requires d > 0 && 0 <= r < d && x == q * d + r
    ensures x / d == q && x % d == r
  {
    var p := x / d;
    assert x == p * d + x % d;
    assert (q - p) * d == q * d - p * d;
    MulAtLeast(q - p, d);
  }

  function AlignDown(x: nat, align: nat): (r: nat)
    requires align > 0
    ensures r % align == 0 && r <= x < r + align
  {
    assert x == x / align * align + x % align;
    DivModUnique(x / align * align, x / align, 0, align);
    x / align * align
  }

  function AlignUp(x: nat, align: nat): (r: nat)
    requires align > 0
    ensures r % align == 0 && x <= r < x + align
  {
    AlignDown(x + align - 1, align)
  }

  /** Two different multiples are at least `d` apart. */
  lemma MultiplesApart(x: int, y: int, d: int)
    requires d > 0 && x % d == 0 && y % d == 0 && x < y
    ensures x + d <= y
  {
    assert x == x / d * d && y == y / d * d;
    assert (y / d - x / d) * d == y - x;
    MulAtLeast(y / d - x / d, d);
  }

  lemma AlignDownGreatest(x: nat, align: nat, y: nat)
    requires align > 0 && y % align == 0 && y <= x
    ensures y <= AlignDown(x, align)
  {
    if AlignDown(x, align) < y {
      MultiplesApart(AlignDown(x, align), y, align);
    }
  }

  lemma AlignUpLeast(x: nat, align: nat, y: nat)
    requires align > 0 && y % align == 0 && x <= y
    ensures AlignUp(x, align) <= y
  {
    if y < AlignUp(x, align) {
      MultiplesApart(y, AlignUp(x, align), align);
    }
  }

  lemma AlignDownSmall(x: nat, align: nat)
    requires x < align
    ensures AlignDown(x, align) == 0
  {
    MultiplesDiffer(AlignDown(x, align), align);
  }

  /** A multiple of `align` other than 0 is no less. */
  lemma MultiplesDiffer(x: nat, align: nat)
    requires align > 0 && x % align == 0
    ensures x == 0 || x >= align
  {
    if x != 0 {
      DivModUnique(0, 0, 0, align);
      MultiplesApart(0, x, align);
    }
  }

  lemma AlignUpSelf(x: nat, align: nat)
    requires align > 0 && x % align == 0
    ensures AlignUp(x, align) == x
  {
    AlignUpLeast(x, align, x);
  }

  lemma SumOfMultiples(x: int, y: int, d: int)
    requires d > 0 && x % d == 0 && y % d == 0
    ensures (x + y) % d == 0 && (x - y) % d == 0
  {
    assert x == x / d * d && y == y / d * d;
    assert (x / d + y / d) * d == x + y && (x / d - y / d) * d == x - y;
    DivModUnique(x + y, x / d + y / d, 0, d);
    DivModUnique(x - y, x / d - y / d, 0, d);
  }
}
