// Powers of two, bits of natural numbers and the division facts that the limb
// arithmetic rests on.

module Arithmetic {
  function Pow2(k: nat): (r: nat)
    ensures r > 0
  {
    if k == 0 then 1 else 2 * Pow2(k - 1)
  }

  lemma {:induction false} Pow2Add(a: nat, b: nat)
    ensures Pow2(a + b) == Pow2(a) * Pow2(b)
  {
    if a > 0 {
      Pow2Add(a - 1, b);
      assert Pow2(a + b) == 2 * Pow2(a - 1 + b);
      MulAssoc(2, Pow2(a - 1), Pow2(b));
    }
  }

  lemma {:induction false} Pow2Monotone(a: nat, b: nat)
    requires a <= b
    ensures Pow2(a) <= Pow2(b)
    decreases b
  {
    if a < b { Pow2Monotone(a, b - 1); }
  }

  lemma Pow2Values()
    ensures Pow2(7) == 128 && Pow2(8) == 256 && Pow2(15) == 0x8000 && Pow2(16) == 0x1_0000
    ensures Pow2(23) == 0x80_0000 && Pow2(24) == 0x100_0000 && Pow2(32) == 0x1_0000_0000
  {
    assert Pow2(4) == 16;
    Pow2Add(4, 3);
    Pow2Add(4, 4);
    Pow2Add(8, 7);
    Pow2Add(8, 8);
    Pow2Add(16, 7);
    Pow2Add(16, 8);
    Pow2Add(16, 16);
  }

  // Bitwise and, or of non-negative numbers.
  function And(a: nat, b: nat): nat {
    if a == 0 || b == 0 then 0
    else 2 * And(a / 2, b / 2) + (if a % 2 == 1 && b % 2 == 1 then 1 else 0)
  }

  function Or(a: nat, b: nat): nat {
    if a == 0 then b
    else if b == 0 then a
    else 2 * Or(a / 2, b / 2) + (if a % 2 == 1 || b % 2 == 1 then 1 else 0)
  }

  function Xor(a: nat, b: nat): nat {
    if a == 0 then b
    else if b == 0 then a
    else 2 * Xor(a / 2, b / 2) + (if a % 2 != b % 2 then 1 else 0)
  }

  lemma {:induction false} AndSelf(a: nat)
    ensures And(a, a) == a
  {
    if a != 0 { AndSelf(a / 2); }
  }

  lemma {:induction false} OrComm(a: nat, b: nat)
    ensures Or(a, b) == Or(b, a)
  {
    if a != 0 && b != 0 { OrComm(a / 2, b / 2); }
  }

  // With no bit in common, or is addition.
  lemma {:induction false} OrDisjoint(a: nat, b: nat, k: nat)
    requires b < Pow2(k) && a % Pow2(k) == 0
    ensures Or(a, b) == a + b
  {
    if a != 0 && b != 0 {
      assert k > 0;
      var p := Pow2(k - 1);
      var q := a / Pow2(k);
      assert a == q * Pow2(k) by { DivModOf(a, Pow2(k)); }
      assert a == 2 * (q * p) by { MulAssoc(q, 2, p); MulAssoc(2, q, p); }
      ModOfMultiple(q, p);
      OrDisjoint(a / 2, b / 2, k - 1);
    }
  }

  function Bit(x: nat, k: nat): bool {
    if k == 0 then x % 2 == 1 else Bit(x / 2, k - 1)
  }

  lemma {:induction false} BitZero(k: nat)
    ensures !Bit(0, k)
  {
    if k > 0 { BitZero(k - 1); }
  }

  lemma {:induction false} BitPow2(j: nat, k: nat)
    ensures Bit(Pow2(j), k) <==> j == k
    decreases k
  {
    if k > 0 {
      if j == 0 { BitZero(k - 1); } else { BitPow2(j - 1, k - 1); }
    }
  }

  lemma {:induction false} BitOr(a: nat, b: nat, k: nat)
    ensures Bit(Or(a, b), k) <==> Bit(a, k) || Bit(b, k)
    decreases k
  {
    if a == 0 || b == 0 {
      BitZero(k);
    } else if k > 0 {
      BitOr(a / 2, b / 2, k - 1);
    }
  }

  lemma {:induction false} BitAnd(a: nat, b: nat, k: nat)
    ensures Bit(And(a, b), k) <==> Bit(a, k) && Bit(b, k)
    decreases k
  {
    if a == 0 || b == 0 {
      BitZero(k);
    } else if k > 0 {
      BitAnd(a / 2, b / 2, k - 1);
    }
  }

  lemma {:induction false} BitXor(a: nat, b: nat, k: nat)
    ensures Bit(Xor(a, b), k) <==> Bit(a, k) != Bit(b, k)
    decreases k
  {
    if a == 0 || b == 0 {
      BitZero(k);
    } else if k > 0 {
      BitXor(a / 2, b / 2, k - 1);
    }
  }

  // The complement in n bits.
  lemma {:induction false} BitNot(x: nat, n: nat, k: nat)
    requires x < Pow2(n) && k < n
    ensures Bit(Pow2(n) - 1 - x, k) <==> !Bit(x, k)
    decreases n
  {
    if k > 0 {
      BitNot(x / 2, n - 1, k - 1);
      assert (Pow2(n) - 1 - x) / 2 == Pow2(n - 1) - 1 - x / 2;
    }
  }

  lemma {:induction false} AndBound(a: nat, b: nat)
    ensures And(a, b) <= a && And(a, b) <= b
  {
    if a != 0 && b != 0 { AndBound(a / 2, b / 2); }
  }

  lemma {:induction false} OrBound(a: nat, b: nat, n: nat)
    requires a < Pow2(n) && b < Pow2(n)
    ensures Or(a, b) < Pow2(n)
    decreases n
  {
    if a != 0 && b != 0 { OrBound(a / 2, b / 2, n - 1); }
  }

  // Testing a bit with a mask of that bit.
  lemma {:induction false} AndPow2(x: nat, k: nat)
    ensures And(Pow2(k), x) != 0 <==> Bit(x, k)
    decreases k
  {
    if x == 0 {
      BitZero(k);
    } else if k == 0 {
      assert Pow2(0) == 1;
    } else {
      AndPow2(x / 2, k - 1);
    }
  }

  /******* Products and quotients *******/

  // A product and shifts as repeated steps, for use where a solver should not look
  // into them.
  function Mul(a: int, b: nat): int {
    if b == 0 then 0 else Mul(a, b - 1) + a
  }

  lemma {:induction false} MulIs(a: int, b: nat)
    ensures Mul(a, b) == a * b
  {
    if b > 0 {
      MulIs(a, b - 1);
      Distribute(b, -1, a);
    }
  }

  function Shr(x: nat, k: nat): nat {
    if k == 0 then x else Shr(x / 2, k - 1)
  }

  lemma {:induction false} BitShr(x: nat, k: nat)
    ensures Bit(x, k) <==> Shr(x, k) % 2 == 1
    decreases k
  {
    if k > 0 { BitShr(x / 2, k - 1); }
  }

  lemma {:induction false} ShrIs(x: nat, k: nat)
    ensures Shr(x, k) == x / Pow2(k)
    decreases k
  {
    if k > 0 {
      ShrIs(x / 2, k - 1);
      DivDiv(x, 2, Pow2(k - 1));
    }
  }

  lemma MulAssoc(a: int, b: int, c: int)
    ensures a * b * c == a * (b * c)
  {
  }

  lemma Distribute(a: int, b: int, c: int)
    ensures (a + b) * c == a * c + b * c
  {
  }

  lemma MulMono(a: int, b: int, c: nat)
    requires a <= b
    ensures a * c <= b * c
  {
  }

  lemma DivModOf(x: int, m: int)
    requires m > 0
    ensures x == (x / m) * m + x % m && 0 <= x % m < m
  {
  }

  // The quotient and the remainder are the only ones.
  lemma DivModUnique(x: int, q: int, r: int, m: int)
    requires m > 0 && x == q * m + r && 0 <= r < m
    ensures x / m == q && x % m == r
  {
    DivModOf(x, m);
    var d := q - x / m;
    assert d * m == q * m - (x / m) * m by { Distribute(q, -(x / m), m); }
    assert d * m == x % m - r;
    if d > 0 { MulMono(1, d, m); }
    if d < 0 { MulMono(d, -1, m); }
  }

  lemma ModOfMultiple(q: int, m: int)
    requires m > 0
    ensures (q * m) % m == 0 && (q * m) / m == q
  {
    DivModUnique(q * m, q, 0, m);
  }

  // Whole multiples come out of a division.
  lemma DivAdd(x: int, q: int, m: int)
    requires m > 0
    ensures (x + q * m) / m == x / m + q && (x + q * m) % m == x % m
  {
    DivModOf(x, m);
    Distribute(x / m, q, m);
    DivModUnique(x + q * m, x / m + q, x % m, m);
  }

  // Dividing twice is dividing by the product.
  lemma DivDiv(x: nat, a: nat, b: nat)
    requires a > 0 && b > 0
    ensures a * b > 0 && x / (a * b) == x / a / b
  {
    var q, r := x / a, x % a;
    var q', r' := q / b, q % b;
    DivModOf(x, a);
    DivModOf(q, b);
    assert q * a == q' * (a * b) + r' * a by {
      Distribute(q' * b, r', a);
      MulAssoc(q', b, a);
      assert b * a == a * b;
    }
    assert r' * a + r < a * b by { MulMono(r', b - 1, a); Distribute(b, -1, a); }
    assert a * b > 0 by { MulMono(1, a, b); }
    assert 0 <= r' * a;
    DivModUnique(x, q', r' * a + r, a * b);
  }

  // x * p in base p * q: the digits are the quotient by q and p times the remainder.
  lemma SplitProduct(x: nat, p: nat, q: nat, b: nat)
    requires p > 0 && q > 0 && b == p * q && x < b
    ensures b > 0 && 0 <= x / q < p && x * p / b == x / q && x * p % b == x % q * p
    ensures x * p == x / q * b + x % q * p
  {
    MulMono(1, p, q);
    DivModOf(x, q);
    var hi, rest := x / q, x % q;
    assert x * p == hi * b + rest * p by { Distribute(hi * q, rest, p); MulAssoc(hi, q, p); }
    assert 0 <= rest * p < b by { MulMono(rest + 1, q, p); Distribute(rest, 1, p); }
    DivModUnique(x * p, hi, rest * p, b);
    if hi >= p { MulMono(p, hi, q); }
  }

  // A multiple of p below a multiple of p leaves room for anything below p.
  lemma FitsBelow(x: nat, y: nat, c: nat, p: nat)
    requires p > 0 && x * p < y * p && c < p
    ensures x * p + c < y * p
  {
    if x >= y { MulMono(y, x, p); }
    MulMono(x + 1, y, p);
    Distribute(x, 1, p);
  }

  /******* Powers *******/

  function Pow(b: nat, e: nat): nat {
    if e == 0 then 1 else b * Pow(b, e - 1)
  }

  lemma {:induction false} PowAdd(b: nat, x: nat, y: nat)
    ensures Pow(b, x + y) == Pow(b, x) * Pow(b, y)
  {
    if x > 0 {
      PowAdd(b, x - 1, y);
      MulAssoc(b, Pow(b, x - 1), Pow(b, y));
    }
  }

  lemma {:induction false} PowPow(b: nat, x: nat, y: nat)
    ensures Pow(Pow(b, x), y) == Pow(b, x * y)
    decreases y
  {
    if y > 0 {
      PowPow(b, x, y - 1);
      Distribute(y, -1, x);
      PowAdd(b, x, x * (y - 1));
    }
  }

  lemma {:induction false} PowMono(b: nat, x: nat, y: nat)
    requires b > 0 && x <= y
    ensures 0 < Pow(b, x) <= Pow(b, y)
    decreases y
  {
    if y == x {
      if x > 0 {
        PowMono(b, x - 1, x - 1);
        MulMono(1, b, Pow(b, x - 1));
      }
    } else {
      PowMono(b, x, y - 1);
      MulMono(1, b, Pow(b, y - 1));
    }
  }

  lemma {:induction false} PowBase(a: nat, b: nat, e: nat)
    requires a <= b
    ensures Pow(a, e) <= Pow(b, e)
  {
    if e > 0 {
      PowBase(a, b, e - 1);
      MulMono(a, b, Pow(a, e - 1));
      MulMono(Pow(a, e - 1), Pow(b, e - 1), b);
    }
  }

  // Roots keep the order.
  lemma PowRoot(a: nat, b: nat, e: nat)
    requires e > 0 && Pow(a, e) <= Pow(b, e)
    ensures a <= b
  {
    if a > b {
      PowBase(b, a, e - 1);
      MulMono(Pow(b, e - 1), Pow(a, e - 1), b);
      PowMono(a, 0, e - 1);
      MulMono(b + 1, a, Pow(a, e - 1));
      Distribute(b, 1, Pow(a, e - 1));
    }
  }

  // From one comparison of powers to all in the same proportion.
  lemma PowCompare(a: nat, b: nat, k: nat, l: nat, n: nat, size: nat)
    requires k > 0 && b > 0 && Pow(a, k) <= Pow(b, l) && l * n <= size * k
    ensures Pow(a, n) <= Pow(b, size)
  {
    PowSwap(a, n, k);
    PowBase(Pow(a, k), Pow(b, l), n);
    PowGrow(b, l, n, size, k);
    PowRoot(Pow(a, n), Pow(b, size), k);
  }

  lemma PowSwap(a: nat, n: nat, k: nat)
    ensures Pow(Pow(a, n), k) == Pow(Pow(a, k), n)
  {
    PowPow(a, n, k);
    PowPow(a, k, n);
    assert n * k == k * n;
  }

  lemma PowGrow(b: nat, l: nat, n: nat, size: nat, k: nat)
    requires b > 0 && l * n <= size * k
    ensures Pow(Pow(b, l), n) <= Pow(Pow(b, size), k)
  {
    MulMono(0, l, n);
    MulMono(0, size, k);
    var x: nat, y: nat := l * n, size * k;
    assert Pow(Pow(b, l), n) == Pow(b, x) by { PowPow(b, l, n); }
    assert Pow(Pow(b, size), k) == Pow(b, y) by { PowPow(b, size, k); }
    PowMono(b, x, y);
  }
}
