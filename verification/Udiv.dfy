/**
 64-bit division by shifting and subtracting.  Words are integers below 2^64; a left shift that
 would lose a bit is written out as such, so the proofs show that none does.
 */
module Udiv {

  const TOP := 0x8000_0000_0000_0000
  const WORDS := 0x1_0000_0000_0000_0000

  predicate Word(x: int) {
    0 <= x < WORDS
  }

  function ShiftLeft(x: int): int {
    x * 2 % WORDS
  }

  function Power(k: nat): nat {
    if k == 0 then 1 else 2 * Power(k - 1)
  }

  /** Setting the bit `bit`, a power of two, in q. */
  function SetBit(q: int, bit: int): int
    requires bit > 0
  {
    if q / bit % 2 == 1 then q else q + bit
  }

  function Product(a: int, b: int): int {
    a * b
  }

  lemma {:induction false} ProductAdds(a: int, b: int, d: int)
    ensures Product(a + b, d) == Product(a, d) + Product(b, d) && Product(2 * a, d) == 2 * Product(a, d)
    ensures Product(0, d) == 0 && Product(1, d) == d
  {
  }

  /** The divisor shifted left k times, with no bit lost. */
  ghost predicate Scaled(d: int, e: int, bit: int, k: nat) {
    bit == Power(k) && e == Product(bit, d)
  }

  /** The first loop: afterwards the dividend is below twice the shifted divisor. */
  method Align(n: int, d: int) returns (e: int, bit: int, ghost k: nat)
    requires Word(n) && Word(d) && d > 0
    ensures Scaled(d, e, bit, k) && 0 < bit <= e && Word(e) && n < 2 * e
  {
    hide Product;
    e, bit, k := d, 1, 0;
    ProductAdds(0, 0, d);
    while e < n && e / TOP == 0
      invariant Scaled(d, e, bit, k) && 0 < bit <= e && Word(e)
      decreases WORDS - e
    {
      assert ShiftLeft(e) == 2 * e && ShiftLeft(bit) == 2 * bit;
      ProductAdds(bit, 0, d);
      e, bit, k := ShiftLeft(e), ShiftLeft(bit), k + 1;
    }
  }

  /** q has no bit at or below `bit`. */
  ghost predicate Above(q: int, bit: int)
    requires bit > 0
  {
    exists m: nat :: Times(m, bit) == q
  }

  ghost function Times(m: nat, bit: int): int {
    m * (2 * bit)
  }

  lemma {:induction false} SetAbove(q: int, bit: int)
    requires bit > 0 && Above(q, bit)
    ensures SetBit(q, bit) == q + bit
  {
    var m: nat :| Times(m, bit) == q;
    assert q == (2 * m) * bit + 0;
    Divides(q, bit, 2 * m, 0);
  }

  lemma {:induction false} Divides(n: int, d: int, q: int, r: int)
    requires d > 0 && n == q * d + r && 0 <= r < d
    ensures n / d == q && n % d == r
  {
    var e := n / d - q;
    assert e * d == (n / d) * d - q * d;
    assert (e >= 1 ==> e * d >= d) && (e <= -1 ==> e * d <= -d);
  }

  /** Below half the bit there is room for the next one. */
  lemma {:induction false} NextAbove(q: int, bit: int, half: int)
    requires half > 0 && bit == 2 * half && Above(q, bit)
    ensures Above(q, half) && Above(q + bit, half)
  {
    var m: nat :| Times(m, bit) == q;
    assert Times(2 * m, half) == q;
    assert Times(2 * m + 1, half) == q + bit;
  }

  /** udiv_qr. */
  method DivMod(n: int, d: int) returns (q: int, r: int)
    requires Word(n) && Word(d)
    ensures Word(q) && Word(r)
    ensures d == 0 ==> q == 0 && r == n
    ensures d > 0 ==> q == n / d && r == n % d
  {
    hide Product, SetBit, Above;
    q, r := 0, n;
    if d == 0 {
      return;
    }
    var e, bit;
    ghost var k;
    e, bit, k := Align(n, d);
    NothingAbove(bit);
    ProductAdds(0, 0, d);
    while bit > 0
      invariant n == Product(q, d) + r && r >= 0 && q >= 0 && bit >= 0
      invariant bit > 0 ==> Scaled(d, e, bit, k) && r < 2 * e && Above(q, bit)
      invariant bit == 0 ==> r < d
      decreases bit
    {
      SetAbove(q, bit);
      ProductAdds(q, bit, d);
      ProductAdds(bit / 2, 0, d);
      if k > 0 {
        NextAbove(q, bit, bit / 2);
        k := k - 1;
      }
      if r >= e {
        r, q := r - e, SetBit(q, bit);
      }
      e, bit := e / 2, bit / 2;
    }
    Concludes(n, d, q, r);
  }

  lemma {:induction false} NothingAbove(bit: int)
    requires bit > 0
    ensures Above(0, bit)
  {
    assert Times(0, bit) == 0;
  }

  lemma {:induction false} Concludes(n: int, d: int, q: int, r: int)
    requires d > 0 && n == Product(q, d) + r && 0 <= r < d && q >= 0
    ensures q == n / d && r == n % d && q <= n
  {
    assert Product(q, d) == q * d;
    Divides(n, d, q, r);
    hide Product;
    ProductAtLeast(q, d);
  }

  lemma {:induction false} NonNegative(x: int, y: int)
    requires x >= 0 && y >= 0
    ensures Product(x, y) >= 0
  {
  }

  lemma {:induction false} ProductAtLeast(q: int, d: int)
    requires q >= 0 && d >= 1
    ensures Product(q, d) >= q
  {
    NonNegative(q, d - 1);
    assert Product(q, d) == Product(q, d - 1) + q;
  }

  // ----- Signed division -----

  function Abs(a: int): nat {
    if a < 0 then -a else a
  }

  /** A signed 64-bit value whose negation is one too. */
  predicate Signed(a: int) {
    -TOP < a < TOP
  }

  /** The quotient and remainder of truncating division. */
  ghost predicate Truncates(a: int, b: int, q: int, r: int) {
    a == q * b + r && Abs(r) < Abs(b) && (r == 0 || (r < 0 <==> a < 0))
  }

  lemma {:induction false} TruncatedIs(a: int, b: int, q: int, r: int)
    requires b != 0
    requires q == if (a < 0) != (b < 0) then -(Abs(a) / Abs(b)) else Abs(a) / Abs(b)
    requires r == if a < 0 then -(Abs(a) % Abs(b)) else Abs(a) % Abs(b)
    ensures Truncates(a, b, q, r)
  {
    var m, k := Abs(a) / Abs(b), Abs(a) % Abs(b);
    assert Abs(a) == m * Abs(b) + k;
    if b < 0 {
      assert m * Abs(b) == -(m * b) == (-m) * b;
    } else {
      assert (-m) * b == -(m * b);
    }
  }

  lemma {:induction false} FarApart(e: int, b: int)
    requires e != 0 && b != 0
    ensures Abs(Product(e, b)) >= Abs(b)
  {
    NonNegative(Abs(e) - 1, Abs(b));
    assert Product(Abs(e) - 1, Abs(b)) == Abs(e) * Abs(b) - Abs(b);
    assert Abs(Product(e, b)) == Abs(e) * Abs(b);
  }

  /** Truncating division has one answer, so that the quotient is the exact one cut toward zero. */
  lemma {:induction false} TruncatedUnique(a: int, b: int, q: int, r: int, q': int, r': int)
    requires b != 0 && Truncates(a, b, q, r) && Truncates(a, b, q', r')
    ensures q == q' && r == r'
  {
    assert Product(q - q', b) == r' - r;
    hide Product;
    if q != q' {
      FarApart(q - q', b);
    }
    ProductAdds(0, 0, b);
  }

  /** __divdi3. */
  method DivSigned(a: int, b: int) returns (q: int)
    requires Signed(a) && Signed(b)
    ensures Signed(q)
    ensures b == 0 ==> q == 0
    ensures b != 0 ==> exists r :: Truncates(a, b, q, r)
  {
    var m, k := DivMod(Abs(a), Abs(b));
    q := if (a < 0) != (b < 0) then -m else m;
    if b != 0 {
      TruncatedIs(a, b, q, if a < 0 then -k else k);
      SmallQuotient(Abs(a), Abs(b));
    }
  }

  lemma {:induction false} SmallQuotient(n: nat, d: nat)
    requires d > 0
    ensures n / d <= n
  {
    var q := n / d;
    assert n == Product(q, d) + n % d;
    hide Product;
    ProductAtLeast(q, d);
  }

  /** __moddi3. */
  method ModSigned(a: int, b: int) returns (r: int)
    requires Signed(a) && Signed(b)
    ensures Signed(r)
    ensures b == 0 ==> r == a
    ensures b != 0 ==> exists q :: Truncates(a, b, q, r)
  {
    var m, k := DivMod(Abs(a), Abs(b));
    r := if a < 0 then -k else k;
    if b != 0 {
      TruncatedIs(a, b, if (a < 0) != (b < 0) then -m else m, r);
    }
  }
}
