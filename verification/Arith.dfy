/** Machine arithmetic: 64-bit wrap-around, the page size, and division by a variable. */
module Arith {
  const W64: nat := 0x1_0000_0000_0000_0000
  const W32: nat := 0x1_0000_0000
  const PAGE: nat := 4096
  const KERNEL_HEAP_LOW: nat := 0x6400_0237_F800
  const HEAP_PAGES: nat := 10000

  datatype Option<+T> = None | Some(value: T)

  /** A C `char`, which is signed. */
  function SignedChar(c: char): int {
    var byte := c as int % 256;
    if byte < 128 then byte else byte - 256
  }

  /** What an unsigned 64-bit register holds after computing `x`. */
  function U64(x: int): (r: nat)
    ensures r < W64
    ensures 0 <= x < W64 ==> r == x
  {
    x % W64
  }

  /** `(mem + mask) & ~mask` with a page-sized mask. */
  function AlignUp(x: nat): (r: nat)
    ensures r < W64 && r % PAGE == 0
    ensures x + PAGE <= W64 ==> x <= r < x + PAGE
  {
    U64(x + (PAGE - 1)) / PAGE * PAGE
  }

  lemma AlignUpAdds(x: nat, k: nat)
    requires x + PAGE * (k + 1) <= W64
    ensures AlignUp(x + PAGE * k) == AlignUp(x) + PAGE * k
  {
  }

  lemma AlignUpNotBelow(x: nat)
    requires x + PAGE <= W64
    ensures x <= AlignUp(x)
  {
  }

  lemma AlignUpKeepsGaps(x: nat, y: nat, k: nat)
    requires x + k * PAGE <= y && y + PAGE <= W64
    ensures AlignUp(x) + k * PAGE <= AlignUp(y)
  {
  }

  // ----- division -----

  lemma DivMod(x: int, n: nat)
    requires n > 0
    ensures x == x / n * n + x % n && 0 <= x % n < n
  {
  }

  lemma ScaleGrows(x: int, y: int, n: nat)
    requires x <= y
    ensures x * n <= y * n
  {
  }

  lemma SameQuotient(d: int, m: nat, e: int, r: nat, n: nat)
    requires m < n && r < n && d * n + m == e * n + r
    ensures d == e && m == r
  {
    if d < e {
      ScaleGrows(d + 1, e, n);
    } else if e < d {
      ScaleGrows(e + 1, d, n);
    }
  }

  lemma Quotient(d: int, m: nat, n: nat)
    requires m < n
    ensures (d * n + m) / n == d && (d * n + m) % n == m
  {
    var x := d * n + m;
    DivMod(x, n);
    SameQuotient(d, m, x / n, x % n, n);
  }

  lemma DivTwice(x: nat, a: nat, b: nat)
    requires a > 0 && b > 0
    ensures a * b > 0 && x / (a * b) == x / a / b
  {
    var q := x / a;
    var d, s, r := q / b, q % b, x % a;
    DivMod(x, a);
    DivMod(q, b);
    RegroupDigits(x, d, s, r, a, b);
    Quotient(d, s * a + r, a * b);
  }

  lemma RegroupDigits(x: nat, d: nat, s: nat, r: nat, a: nat, b: nat)
    requires x == (d * b + s) * a + r && r < a && s < b
    ensures a * b > 0 && x == d * (a * b) + (s * a + r) && s * a + r < a * b
  {
    ScaleGrows(s + 1, b, a);
    assert (d * b + s) * a == d * b * a + s * a;
    assert d * b * a == d * (a * b);
  }

  /** A remainder modulo a multiple of `n` does not change what is left modulo `n`'s multiples. */
  lemma DivOfMod(x: nat, n: nat, m: nat)
    requires n > 0 && m > 0
    ensures n * m > 0 && x % (n * m) / n == x / n % m
  {
    var d, s, r := x / n / m, x / n % m, x % n;
    DivMod(x, n);
    DivMod(x / n, m);
    RegroupDigits(x, d, s, r, n, m);
    Quotient(d, s * n + r, n * m);
    Quotient(s, r, n);
  }

  /** Multiples of the modulus drop out. */
  lemma ModDrops(x: int, q: int, n: nat)
    requires n > 0
    ensures (x + q * n) % n == x % n
  {
    var d := x / n;
    DivMod(x, n);
    assert (d + q) * n == d * n + q * n;
    Quotient(d + q, x % n, n);
  }

  // ----- bitwise or -----

  function LowBit(a: nat, b: nat): (c: nat)
    ensures c < 2
  {
    if a % 2 == 1 || b % 2 == 1 then 1 else 0
  }

  function Or(a: nat, b: nat): nat
    decreases a + b
  {
    if a == 0 && b == 0 then 0 else LowBit(a, b) + 2 * Or(a / 2, b / 2)
  }

  lemma OrOfOdd(a: nat, b: nat)
    requires b % 2 == 1
    ensures Or(a, b) % 2 == 1
  {
    var both, half := Or(a, b), Or(a / 2, b / 2);
    assert both == 1 + 2 * half;
    hide Or;
    OddNumber(half);
  }

  lemma OddNumber(k: nat)
    ensures (1 + 2 * k) % 2 == 1
  {
  }

  function Power2(k: nat): (p: nat)
    ensures p > 0
  {
    if k == 0 then 1 else 2 * Power2(k - 1)
  }

  /** Or-ing bits into the free low end of a number adds them. */
  lemma {:induction false} OrAdds(high: nat, low: nat, k: nat)
    requires low < Power2(k)
    ensures Or(high * Power2(k), low) == high * Power2(k) + low
    decreases k
  {
    if k == 0 {
      OrZero(high);
    } else {
      var half := high * Power2(k - 1);
      assert high * Power2(k) == 2 * half;
      OrAdds(high, low / 2, k - 1);
      assert (2 * half) / 2 == half && (2 * half) % 2 == 0;
    }
  }

  lemma {:induction false} OrZero(a: nat)
    ensures Or(a, 0) == a
  {
    if a > 0 {
      OrZero(a / 2);
    }
  }

  lemma OrFlags(page: nat, flags: nat)
    requires page % PAGE == 0 && flags < PAGE
    ensures Or(page, flags) == page + flags
  {
    hide Or, Power2;
    TwelveBits();
    DivMod(page, PAGE);
    OrAdds(page / PAGE, flags, 12);
  }

  lemma TwelveBits()
    ensures Power2(12) == PAGE
  {
    assert Power2(4) == 16 && Power2(8) == 256;
  }
}
