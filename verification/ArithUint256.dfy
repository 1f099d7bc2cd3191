// 256-bit unsigned integers of src/arith_uint256.h and src/arith_uint256.cpp.  An
// object of class base_uint<256> is its array pn of eight 32-bit limbs; each
// operator is a method on such arrays, proved against arithmetic on integers.
// The types of the 64-bit variables show that no carry overflows them.

module ArithUint256 {
  import opened Arithmetic

  const B: nat := 0x1_0000_0000
  const WIDTH: nat := 8

  type uint32 = x: int | 0 <= x < 0x1_0000_0000
  type uint64 = x: int | 0 <= x < 0x1_0000_0000_0000_0000

  // What arithmetic is modulo.
  function Modulus(): nat { Pow2(32 * WIDTH) }

  // c in the place of limb i: c * B^i.
  function At(c: int, i: nat): int
    decreases i
  {
    if i == 0 then c else At(c * B, i - 1)
  }

  // The value of the lowest n limbs.
  function ValTo(s: seq<uint32>, n: nat): int
    requires n <= |s|
  {
    if n == 0 then 0 else ValTo(s, n - 1) + At(s[n - 1], n - 1)
  }

  function Val(s: seq<uint32>): int { ValTo(s, |s|) }

  // The low and the high half of a 64-bit value.
  function Low(n: int): uint32 { n % B }
  function High(n: int): int { n / B }

  // x << k in 32 bits.
  function Shl(x: uint32, k: nat): uint32
    decreases k
  {
    if k == 0 then x else Shl(Low(2 * x), k - 1)
  }

  lemma {:induction false} ShlIs(x: uint32, k: nat)
    ensures Shl(x, k) == Low(x * Pow2(k))
    decreases k
  {
    if k > 0 {
      ShlIs(Low(2 * x), k - 1);
      var p := Pow2(k - 1);
      DivModOf(2 * x, B);
      var q := (2 * x) / B;
      assert 2 * x * p == Low(2 * x) * p + (q * p) * B by {
        Distribute(q * B, Low(2 * x), p);
        MulAssoc(q, B, p);
        MulAssoc(q, p, B);
      }
      MulAssoc(x, 2, p);
      DivAdd(Low(2 * x) * p, q * p, B);
    }
  }

  // A 32-bit value that wraps round.
  function Wrapped(x: int, d: int): uint32 { Low(x + d) }

  /******* Values of limb sequences *******/

  lemma {:induction false} AtAdd(a: int, b: int, i: nat)
    ensures At(a + b, i) == At(a, i) + At(b, i)
    decreases i
  {
    if i > 0 { AtAdd(a * B, b * B, i - 1); }
  }

  lemma {:induction false} AtMono(a: int, b: int, i: nat)
    requires a <= b
    ensures At(a, i) <= At(b, i)
    decreases i
  {
    if i > 0 { AtMono(a * B, b * B, i - 1); }
  }

  lemma {:induction false} AtZero(i: nat)
    ensures At(0, i) == 0
    decreases i
  {
    if i > 0 { AtZero(i - 1); }
  }

  lemma {:induction false} AtIs(c: int, i: nat)
    ensures At(c, i) == c * Pow2(32 * i)
    decreases i
  {
    if i > 0 {
      AtIs(c * B, i - 1);
      Pow2Add(32, 32 * (i - 1));
      Pow2Values();
      MulAssoc(c, B, Pow2(32 * (i - 1)));
    }
  }

  lemma {:induction false} ValBound(s: seq<uint32>, n: nat)
    requires n <= |s|
    ensures 0 <= ValTo(s, n) < At(1, n)
  {
    if n > 0 {
      var c: int := s[n - 1];
      ValBound(s, n - 1);
      AtZero(n - 1);
      AtMono(0, c, n - 1);
      AtMono(c + 1, B, n - 1);
      AtAdd(c, 1, n - 1);
    }
  }

  lemma ValRange(s: seq<uint32>)
    requires |s| == WIDTH
    ensures 0 <= Val(s) < Modulus()
  {
    ValBound(s, WIDTH);
    AtIs(1, WIDTH);
  }

  lemma {:induction false} ValSame(s: seq<uint32>, t: seq<uint32>, n: nat)
    requires n <= |s| && n <= |t| && forall i | 0 <= i < n :: s[i] == t[i]
    ensures ValTo(s, n) == ValTo(t, n)
  {
    if n > 0 { ValSame(s, t, n - 1); }
  }

  // Limbs above n that are zero add nothing.
  lemma {:induction false} ValTop(s: seq<uint32>, n: nat, m: nat)
    requires n <= m <= |s| && forall i | n <= i < m :: s[i] == 0
    ensures ValTo(s, m) == ValTo(s, n)
    decreases m
  {
    if n < m {
      ValTop(s, n, m - 1);
      AtZero(m - 1);
    }
  }

  // Sequences that agree from n on differ in value as their first n limbs do.
  lemma {:induction false} TailSame(s: seq<uint32>, t: seq<uint32>, n: nat, m: nat)
    requires n <= m <= |s| && m <= |t| && forall k | n <= k < m :: s[k] == t[k]
    ensures ValTo(t, m) - ValTo(t, n) == ValTo(s, m) - ValTo(s, n)
    decreases m
  {
    if n < m { TailSame(s, t, n, m - 1); }
  }

  // Writing the low half of n to limb i and carrying the high half.
  lemma Deposit(s: seq<uint32>, i: nat, n: int)
    requires i < |s|
    ensures ValTo(s[i := Low(n)], i + 1) + At(High(n), i + 1) == ValTo(s, i) + At(n, i)
  {
    ValSame(s, s[i := Low(n)], i);
    AtAdd(High(n) * B, Low(n), i);
  }

  // A value known up to a multiple of the modulus is known modulo it.
  lemma Reduced(s: seq<uint32>, q: int, x: int)
    requires |s| == WIDTH && Val(s) + At(q, WIDTH) == x
    ensures Val(s) == x % Modulus()
  {
    ValRange(s);
    AtIs(q, WIDTH);
    DivModUnique(x, q, Val(s), Modulus());
  }

  /******* Assignment, complement, sums *******/

  // *this = b
  method Assign(pn: array<uint32>, b: uint64)
    requires pn.Length == WIDTH
    modifies pn
    ensures Val(pn[..]) == b
  {
    pn[0] := Low(b);
    pn[1] := High(b);
    for i := 2 to WIDTH
      invariant pn[0] == Low(b) && pn[1] == High(b) && forall k | 2 <= k < i :: pn[k] == 0
    {
      pn[i] := 0;
    }
    ValTop(pn[..], 2, WIDTH);
    LowTwo(pn[..]);
  }

  lemma LowTwo(s: seq<uint32>)
    requires |s| >= 2
    ensures ValTo(s, 2) == s[0] + s[1] * B
  {
    assert ValTo(s, 2) == ValTo(s, 1) + At(s[1], 1);
    assert At(s[1], 1) == At(s[1] * B, 0);
    assert ValTo(s, 1) == ValTo(s, 0) + At(s[0], 0);
  }

  method New(b: uint64) returns (r: array<uint32>)
    ensures fresh(r) && r.Length == WIDTH && Val(r[..]) == b
  {
    r := new uint32[WIDTH];
    Assign(r, b);
  }

  method Copy(b: array<uint32>) returns (r: array<uint32>)
    requires b.Length == WIDTH
    ensures fresh(r) && r.Length == WIDTH && r[..] == b[..]
  {
    r := new uint32[WIDTH];
    for i := 0 to WIDTH
      invariant r[..i] == b[..i]
    {
      r[i] := b[i];
    }
    assert r[..] == r[..WIDTH] && b[..] == b[..WIDTH];
  }

  lemma {:induction false} ComplementVal(s: seq<uint32>, t: seq<uint32>, n: nat)
    requires n <= |s| == |t| && forall i | 0 <= i < n :: t[i] == B - 1 - s[i]
    ensures ValTo(t, n) == At(1, n) - 1 - ValTo(s, n)
  {
    if n > 0 {
      ComplementVal(s, t, n - 1);
      AtAdd(t[n - 1] + s[n - 1], 1, n - 1);
      AtAdd(t[n - 1], s[n - 1], n - 1);
    }
  }

  // ~b
  method Complement(b: array<uint32>) returns (ret: array<uint32>)
    requires b.Length == WIDTH
    ensures fresh(ret) && ret.Length == WIDTH && Val(ret[..]) == Modulus() - 1 - Val(b[..])
  {
    ret := new uint32[WIDTH];
    for i := 0 to WIDTH
      invariant forall k | 0 <= k < i :: ret[k] == B - 1 - b[k]
    {
      ret[i] := B - 1 - b[i];
    }
    ComplementVal(b[..], ret[..], WIDTH);
    AtIs(1, WIDTH);
  }

  // ++*this: the carry runs over limbs that become zero.
  method Increment(pn: array<uint32>)
    requires pn.Length == WIDTH
    modifies pn
    ensures Val(pn[..]) == (old(Val(pn[..])) + 1) % Modulus()
  {
    ghost var s := pn[..];
    var i := 0;
    Bump(s, 0, 1);
    pn[0] := Wrapped(pn[0], 1);
    assert pn[..] == s[0 := Wrapped(s[0], 1)];
    while pn[i] == 0 && i < WIDTH - 1
      invariant 0 <= i < WIDTH && forall k | i < k < WIDTH :: pn[k] == s[k]
      invariant ValTo(pn[..], i + 1) + At(if pn[i] == 0 then 1 else 0, i + 1) == ValTo(s, i + 1) + 1
    {
      ghost var t := pn[..];
      i := i + 1;
      Bump(t, i, 1);
      pn[i] := Wrapped(pn[i], 1);
      assert pn[..] == t[i := Wrapped(t[i], 1)];
    }
    Bumped(s, pn[..], i, if pn[i] == 0 then 1 else 0, 1);
  }

  // --*this
  method Decrement(pn: array<uint32>)
    requires pn.Length == WIDTH
    modifies pn
    ensures Val(pn[..]) == (old(Val(pn[..])) - 1) % Modulus()
  {
    ghost var s := pn[..];
    var i := 0;
    Bump(s, 0, -1);
    pn[0] := Wrapped(pn[0], -1);
    assert pn[..] == s[0 := Wrapped(s[0], -1)];
    while pn[i] == B - 1 && i < WIDTH - 1
      invariant 0 <= i < WIDTH && forall k | i < k < WIDTH :: pn[k] == s[k]
      invariant ValTo(pn[..], i + 1) + At(if pn[i] == B - 1 then -1 else 0, i + 1) == ValTo(s, i + 1) - 1
    {
      ghost var t := pn[..];
      i := i + 1;
      Bump(t, i, -1);
      pn[i] := Wrapped(pn[i], -1);
      assert pn[..] == t[i := Wrapped(t[i], -1)];
    }
    Bumped(s, pn[..], i, if pn[i] == B - 1 then -1 else 0, -1);
  }

  // One more (or less) in limb i carries (or borrows) when the limb comes round.
  lemma Bump(s: seq<uint32>, i: nat, d: int)
    requires i < |s| && (d == 1 || d == -1)
    ensures var v := Wrapped(s[i], d);
            var c := if d == 1 then (if v == 0 then 1 else 0) else if v == B - 1 then -1 else 0;
            ValTo(s[i := v], i + 1) + At(c, i + 1) == ValTo(s, i) + At(s[i], i) + At(d, i)
  {
    var x: int := s[i];
    Deposit(s, i, x + d);
    AtAdd(x, d, i);
  }

  // The run of carries ends at limb i, with c carried out of it.
  lemma Bumped(s: seq<uint32>, t: seq<uint32>, i: nat, c: int, d: int)
    requires |s| == |t| == WIDTH && i < WIDTH && forall k | i < k < WIDTH :: t[k] == s[k]
    requires ValTo(t, i + 1) + At(c, i + 1) == ValTo(s, i + 1) + d && (c == 0 || i == WIDTH - 1)
    ensures Val(t) == (Val(s) + d) % Modulus()
  {
    TailSame(s, t, i + 1, WIDTH);
    AtZero(i + 1);
    AtZero(WIDTH);
    Reduced(t, c, Val(s) + d);
  }

  // -b
  method Negate(b: array<uint32>) returns (ret: array<uint32>)
    requires b.Length == WIDTH
    ensures fresh(ret) && ret.Length == WIDTH && Val(ret[..]) == (0 - Val(b[..])) % Modulus()
  {
    ret := Complement(b);
    ghost var c := Val(ret[..]);
    Increment(ret);
    DivAdd(0 - Val(b[..]), 1, Modulus());
    assert c + 1 == 0 - Val(b[..]) + 1 * Modulus();
  }

  // p and the carry are added to limb k, as in the loops of += and *=.
  method AddLimb(pn: array<uint32>, k: nat, p: uint64, carry: uint64) returns (carry': uint64)
    requires k < pn.Length && p <= (B - 1) * (B - 1) && carry < B
    modifies pn
    ensures pn[..] == old(pn[..])[k := pn[k]] && carry' < B && (p < B && carry <= 1 ==> carry' <= 1)
    ensures ValTo(pn[..], k + 1) + At(carry', k + 1) == old(ValTo(pn[..], k + 1)) + At(carry, k) + At(p, k)
    ensures p == 0 && carry == 0 ==> carry' == 0 && pn[..] == old(pn[..])
  {
    ghost var before := pn[..];
    ghost var x: int := pn[k];
    var n: uint64 := carry + pn[k] + p;
    pn[k] := Low(n);
    assert pn[..] == before[k := Low(n)];
    Deposit(before, k, n);
    AtAdd(carry + x, p, k);
    AtAdd(carry, x, k);
    carry' := High(n);
  }

  // *this += b, where b may be *this
  method AddAssign(pn: array<uint32>, b: array<uint32>)
    requires pn.Length == WIDTH && b.Length == WIDTH
    modifies pn
    ensures Val(pn[..]) == (old(Val(pn[..])) + old(Val(b[..]))) % Modulus()
  {
    ghost var s, t := pn[..], b[..];
    var carry: uint64 := 0;
    for i := 0 to WIDTH
      invariant carry <= 1
      invariant forall k | i <= k < WIDTH :: pn[k] == s[k] && b[k] == t[k]
      invariant ValTo(pn[..], i) + At(carry, i) == ValTo(s, i) + ValTo(t, i)
    {
      carry := AddLimb(pn, i, b[i], carry);
    }
    Reduced(pn[..], carry, Val(s) + Val(t));
  }

  // *this -= b
  method SubAssign(pn: array<uint32>, b: array<uint32>)
    requires pn.Length == WIDTH && b.Length == WIDTH
    modifies pn
    ensures Val(pn[..]) == (old(Val(pn[..])) - old(Val(b[..]))) % Modulus()
  {
    ghost var x, y := Val(pn[..]), Val(b[..]);
    var neg := Negate(b);
    ghost var z := Val(neg[..]);
    AddAssign(pn, neg);
    SubMod(x, y, z, Modulus());
  }

  lemma SubMod(x: int, y: int, z: int, m: int)
    requires m > 0 && z == (0 - y) % m
    ensures (x + z) % m == (x - y) % m
  {
    DivModOf(0 - y, m);
    DivAdd(x + z, (0 - y) / m, m);
  }

  /******* Products *******/

  lemma MulBound(a: uint32, b: uint32)
    ensures 0 <= a * b <= (B - 1) * (B - 1)
  {
    MulMono(a, B - 1, b);
    MulMono(b, B - 1, B - 1);
  }

  // Each of the lowest n limbs times y, in its place.
  ghost function Scaled(s: seq<uint32>, n: nat, y: int): int
    requires n <= |s|
  {
    if n == 0 then 0 else Scaled(s, n - 1, y) + At(s[n - 1] * y, n - 1)
  }

  lemma {:induction false} AtTimes(a: int, b: int, i: nat)
    ensures At(a * b, i) == a * At(b, i)
    decreases i
  {
    if i > 0 {
      AtTimes(a, b * B, i - 1);
      MulAssoc(a, b, B);
    }
  }

  lemma {:induction false} ScaledIs(s: seq<uint32>, n: nat, y: int)
    requires n <= |s|
    ensures Scaled(s, n, y) == ValTo(s, n) * y
  {
    if n > 0 {
      ScaledIs(s, n - 1, y);
      var c: int := s[n - 1];
      AtTimes(y, c, n - 1);
      assert c * y == y * c;
      Distribute(ValTo(s, n - 1), At(c, n - 1), y);
    }
  }

  // *this *= b32
  method MulAssign32(pn: array<uint32>, b32: uint32)
    requires pn.Length == WIDTH
    modifies pn
    ensures Val(pn[..]) == old(Val(pn[..])) * b32 % Modulus()
  {
    ghost var s := pn[..];
    var carry: uint64 := 0;
    for i := 0 to WIDTH
      invariant carry < B
      invariant forall k | i <= k < WIDTH :: pn[k] == s[k]
      invariant ValTo(pn[..], i) + At(carry, i) == Scaled(s, i, b32)
    {
      ghost var before := pn[..];
      MulBound(pn[i], b32);
      var p: uint64 := pn[i] * b32;
      var n: uint64 := carry + p;
      pn[i] := Low(n);
      assert pn[..] == before[i := Low(n)];
      Deposit(before, i, n);
      AtAdd(carry, p, i);
      carry := High(n);
    }
    ScaledIs(s, WIDTH, b32);
    Reduced(pn[..], carry, Val(s) * b32);
  }

  lemma {:induction false} AtAt(c: int, i: nat, j: nat)
    ensures At(At(c, i), j) == At(c, i + j)
    decreases i
  {
    if i > 0 { AtAt(c * B, i - 1, j); }
  }

  // Limbs from n on make up something in the place of limb n.
  lemma {:induction false} ValSplit(s: seq<uint32>, n: nat, m: nat) returns (q: int)
    requires n <= m <= |s|
    ensures ValTo(s, m) == ValTo(s, n) + At(q, n)
    decreases m
  {
    if n == m {
      q := 0;
      AtZero(n);
    } else {
      var q0 := ValSplit(s, n, m - 1);
      q := q0 + At(s[m - 1], m - 1 - n);
      AtAdd(q0, At(s[m - 1], m - 1 - n), n);
      AtAt(s[m - 1], m - 1 - n, n);
    }
  }

  ghost predicate Cleared(s: seq<uint32>) {
    forall k | 0 <= k < |s| :: s[k] == 0
  }

  // The lowest n limbs times a, moved up by j limbs.
  ghost function Row(a: nat, t: seq<uint32>, n: nat, j: nat): int
    requires n <= |t|
  {
    if n == 0 then 0 else Row(a, t, n - 1, j) + At(Mul(t[n - 1], a), n - 1 + j)
  }

  lemma {:induction false} RowIs(a: nat, t: seq<uint32>, n: nat, j: nat)
    requires n <= |t|
    ensures Row(a, t, n, j) == At(a * ValTo(t, n), j)
  {
    if n == 0 {
      AtZero(j);
    } else {
      RowIs(a, t, n - 1, j);
      var c: int := t[n - 1];
      MulIs(c, a);
      assert Mul(c, a) == a * c;
      AtTimes(a, c, n - 1);
      AtAt(a * c, n - 1, j);
      AtLinear(a, ValTo(t, n - 1), At(c, n - 1), j);
    }
  }

  // One row of the product: pn gains a * b, moved up by j limbs; q is what is lost.
  // When b is pn itself and is clear, it stays so.
  method AddRow(pn: array<uint32>, j: nat, a: uint32, b: array<uint32>) returns (ghost q: int)
    requires pn.Length == WIDTH && b.Length == WIDTH && j < WIDTH
    modifies pn
    ensures b != pn ==> Val(pn[..]) + At(q, WIDTH) == old(Val(pn[..])) + At(a * Val(b[..]), j)
    ensures b == pn && old(Cleared(pn[..])) ==> Cleared(pn[..])
  {
    ghost var s, t := pn[..], b[..];
    var carry: uint64 := 0;
    var i := 0;
    AtZero(j);
    while i + j < WIDTH
      invariant 0 <= i && i + j <= WIDTH && carry < B
      invariant forall k | i + j <= k < WIDTH :: pn[k] == s[k]
      invariant b != pn ==> ValTo(pn[..], i + j) + At(carry, i + j) == ValTo(s, i + j) + Row(a, t, i, j)
      invariant b == pn && Cleared(s) ==> pn[..] == s && carry == 0
    {
      MulBound(a, b[i]);
      MulIs(b[i], a);
      carry := AddLimb(pn, i + j, a * b[i], carry);
      i := i + 1;
    }
    q := RowEnd(carry, a, t, i, j);
  }

  // What the row has left out is in the place of the limb after the last.
  lemma RowEnd(carry: int, a: nat, t: seq<uint32>, i: nat, j: nat) returns (q: int)
    requires i + j == WIDTH == |t|
    ensures Row(a, t, i, j) + At(q, WIDTH) == At(a * Val(t), j) + At(carry, WIDTH)
  {
    var rest := ValSplit(t, i, WIDTH);
    RowIs(a, t, i, j);
    q := carry + a * rest;
    AtLinear(a, ValTo(t, i), At(rest, i), j);
    AtTimes(a, rest, i);
    AtAt(a * rest, i, j);
    AtAdd(carry, a * rest, WIDTH);
  }

  lemma AtLinear(a: int, x: int, y: int, j: nat)
    ensures At(a * (x + y), j) == At(a * x, j) + At(a * y, j)
  {
    assert a * (x + y) == a * x + a * y;
    AtAdd(a * x, a * y, j);
  }

  // *this *= b.  The operand is read after *this is cleared, so an object that is
  // multiplied by itself in place becomes zero, which is right just for multiples of 2^128.
  method MulAssign(pn: array<uint32>, b: array<uint32>)
    requires pn.Length == WIDTH && b.Length == WIDTH
    modifies pn
    ensures b != pn ==> Val(pn[..]) == old(Val(pn[..])) * Val(b[..]) % Modulus()
    ensures b == pn ==> Val(pn[..]) == 0
    ensures b == pn ==> var x := old(Val(pn[..])); (Val(pn[..]) == x * x % Modulus() <==> x % Pow2(128) == 0)
  {
    var a := Copy(pn);
    Assign(pn, 0);
    ghost var lost := 0;
    ghost var s, y := a[..], Val(b[..]);
    AtZero(WIDTH);
    ValClear(pn[..], WIDTH);
    for j := 0 to WIDTH
      invariant a[..] == s
      invariant b != pn ==> Val(pn[..]) + At(lost, WIDTH) == Scaled(s, j, y)
      invariant b == pn ==> Cleared(pn[..])
    {
      ghost var q := AddRow(pn, j, a[j], b);
      AtAdd(lost, q, WIDTH);
      lost := lost + q;
    }
    if b != pn {
      ScaledIs(s, WIDTH, y);
      Reduced(pn[..], lost, Val(s) * y);
    } else {
      ValTop(pn[..], 0, WIDTH);
      ValRange(s);
      MulBySelf(Val(s));
    }
  }

  // Only zero limbs have the value zero.
  lemma {:induction false} ValClear(s: seq<uint32>, n: nat)
    requires n <= |s| && ValTo(s, n) == 0
    ensures forall k | 0 <= k < n :: s[k] == 0
  {
    if n > 0 {
      ValBound(s, n - 1);
      AtZero(n - 1);
      AtMono(0, s[n - 1], n - 1);
      if s[n - 1] > 0 {
        AtMono(1, s[n - 1], n - 1);
      }
      ValClear(s, n - 1);
    }
  }

  // A square is a multiple of an even power of two just when its root is one of
  // half the power.
  lemma {:induction false} SquareDivides(x: nat, n: nat)
    ensures x * x % Pow2(2 * n) == 0 <==> x % Pow2(n) == 0
    decreases n
  {
    if n > 0 {
      var y := x / 2;
      if x % 2 == 0 {
        SquareDivides(y, n - 1);
        EvenSquare(y, Pow2(2 * n - 2));
        ScaleMod(2, y, Pow2(n - 1));
      } else {
        OddSquare(y);
        OddMod(x, Pow2(n - 1));
        OddMod(x * x, Pow2(2 * n - 1));
      }
    }
  }

  lemma EvenSquare(y: nat, m: nat)
    requires m > 0
    ensures (2 * y) * (2 * y) % (2 * (2 * m)) == 0 <==> y * y % m == 0
  {
    assert (2 * y) * (2 * y) == 4 * (y * y);
    ScaleMod(4, y * y, m);
  }

  lemma OddSquare(y: nat)
    ensures (2 * y + 1) * (2 * y + 1) % 2 == 1
  {
    assert (2 * y + 1) * (2 * y + 1) == 2 * (2 * (y * y) + 2 * y) + 1;
  }

  lemma ScaleMod(c: nat, x: nat, m: nat)
    requires c > 0 && m > 0
    ensures c * m > 0 && (c * x) % (c * m) == c * (x % m)
  {
    MulMono(1, c, m);
    DivModOf(x, m);
    var q, r := x / m, x % m;
    assert c * x == q * (c * m) + c * r by {
      assert c * (q * m + r) == c * (q * m) + c * r;
      MulAssoc(c, q, m);
      assert c * q == q * c;
      MulAssoc(q, c, m);
    }
    assert c * r < c * m by { assert r + 1 <= m; MulMono(r + 1, m, c); assert (r + 1) * c == r * c + c; }
    DivModUnique(c * x, q, c * r, c * m);
  }

  lemma OddMod(x: nat, m: nat)
    requires x % 2 == 1 && m > 0
    ensures x % (2 * m) != 0
  {
    DivModOf(x, 2 * m);
    var q := x / (2 * m);
    assert q * (2 * m) == 2 * (q * m);
  }

  // Multiplying an object by itself in place, which leaves zero, is right just for
  // the multiples of 2^128.
  lemma MulBySelf(x: nat)
    requires x < Modulus()
    ensures x * x % Modulus() == 0 <==> x % Pow2(128) == 0
  {
    SquareDivides(x, 128);
  }

  /******* Shifts *******/

  // A limb moved up by r bits is in two parts: the high one for the next limb, and
  // the low one, which leaves room for anything of r bits.
  lemma SplitUp(x: uint32, r: nat, c: nat)
    requires r < 32 && c < Pow2(r)
    ensures Shr(x, 32 - r) < Pow2(r) <= B && Or(c, Shl(x, r)) == c + Shl(x, r) < B
    ensures Mul(x, Pow2(r)) == Shr(x, 32 - r) * B + Shl(x, r)
  {
    var p, q := Pow2(r), Pow2(32 - r);
    Pow2Add(r, 32 - r);
    Pow2Values();
    Pow2Monotone(r, 32);
    SplitProduct(x, p, q, B);
    FitsBelow(x % q, q, c, p);
    ModOfMultiple(x % q, p);
    OrDisjoint(x % q * p, c, r);
    OrComm(c, x % q * p);
    ShlIs(x, r);
    ShrIs(x, 32 - r);
    MulIs(x, p);
  }

  method Clear(pn: array<uint32>)
    modifies pn
    ensures Cleared(pn[..])
  {
    for i := 0 to pn.Length
      invariant forall k | 0 <= k < i :: pn[k] == 0
    {
      pn[i] := 0;
    }
  }

  // The body of the loop of <<=, for a limb that lands at `to`.
  method ShiftLimbUp(pn: array<uint32>, to: nat, x: uint32, shift: nat) returns (ghost lost: int)
    requires to < WIDTH == pn.Length && shift < 32
    requires pn[to] < Pow2(shift) && forall t | to < t < WIDTH :: pn[t] == 0
    modifies pn
    ensures to + 1 < WIDTH ==> pn[to + 1] < Pow2(shift) && forall t | to + 1 < t < WIDTH :: pn[t] == 0
    ensures to + 1 < WIDTH ==> ValTo(pn[..], to + 2) == old(ValTo(pn[..], to + 1)) + At(Mul(x, Pow2(shift)), to)
    ensures to + 1 == WIDTH ==> Val(pn[..]) + At(lost, WIDTH) == old(Val(pn[..])) + At(Mul(x, Pow2(shift)), to)
  {
    ghost var s := pn[..];
    SplitUp(x, shift, pn[to]);
    lost := Shr(x, 32 - shift);
    if to + 1 < WIDTH && shift != 0 {
      pn[to + 1] := Or(pn[to + 1], Shr(x, 32 - shift));
    }
    pn[to] := Or(pn[to], Shl(x, shift));
    Landed(s, pn[..], to, Shl(x, shift), lost, Mul(x, Pow2(shift)));
  }

  lemma Landed(s: seq<uint32>, s': seq<uint32>, to: nat, lo: nat, hi: nat, y: int)
    requires to < |s| == |s'| && forall t | 0 <= t < to :: s'[t] == s[t]
    requires s'[to] == s[to] + lo && y == hi * B + lo
    ensures ValTo(s', to + 1) + At(hi, to + 1) == ValTo(s, to + 1) + At(y, to)
  {
    ValSame(s, s', to);
    AtAdd(s[to], lo, to);
    AtAdd(hi * B, lo, to);
  }

  // *this <<= shift
  method ShiftLeftAssign(pn: array<uint32>, shift0: nat)
    requires pn.Length == WIDTH
    modifies pn
    ensures Val(pn[..]) == old(Val(pn[..])) * Pow2(shift0) % Modulus()
  {
    var a := Copy(pn);
    ghost var s := a[..];
    Clear(pn);
    var k := shift0 / 32;
    var shift := shift0 % 32;
    ghost var lost := 0;
    AtZero(WIDTH);
    ValTop(pn[..], 0, WIDTH);
    if k < WIDTH { ValTop(pn[..], 0, k + 1); }
    for i := 0 to WIDTH
      invariant a[..] == s
      invariant i + k < WIDTH ==> pn[i + k] < Pow2(shift) && forall t | i + k < t < WIDTH :: pn[t] == 0
      invariant i + k < WIDTH ==> ValTo(pn[..], i + k + 1) == Row(Pow2(shift), s, i, k)
      invariant i + k >= WIDTH ==> Val(pn[..]) + At(lost, WIDTH) == Row(Pow2(shift), s, i, k)
    {
      if i + k < WIDTH {
        lost := ShiftLimbUp(pn, i + k, a[i], shift);
      } else {
        lost := Beyond(lost, Mul(s[i], Pow2(shift)), i + k);
      }
    }
    ShiftIsProduct(s, shift, k);
    Reduced(pn[..], lost, Val(s) * Pow2(shift0));
  }

  // What lands beyond the last limb is lost.
  lemma Beyond(lost: int, y: int, to: nat) returns (lost': int)
    requires to >= WIDTH
    ensures At(lost', WIDTH) == At(lost, WIDTH) + At(y, to)
  {
    AtAt(y, to - WIDTH, WIDTH);
    AtAdd(lost, At(y, to - WIDTH), WIDTH);
    lost' := lost + At(y, to - WIDTH);
  }

  lemma ShiftIsProduct(s: seq<uint32>, shift: nat, k: nat)
    ensures Row(Pow2(shift), s, |s|, k) == Val(s) * Pow2(32 * k + shift)
  {
    var p, v := Pow2(shift), Val(s);
    RowIs(p, s, |s|, k);
    AtIs(p * v, k);
    Pow2Add(32 * k, shift);
    MulAssoc(v, p, Pow2(32 * k));
    assert p * v == v * p && p * Pow2(32 * k) == Pow2(32 * k) * p;
  }

  // A limb moved down by r bits is in two parts: the high bits stay in the limb,
  // and the low ones go to the top of the limb below.
  lemma SplitDown(x: uint32, r: nat, c: nat)
    requires r < 32 && c < Pow2(32 - r)
    ensures Or(c, Shl(x, 32 - r)) == c + Shl(x, 32 - r) < B && (r == 0 ==> Shl(x, 32 - r) == 0)
    ensures Shr(x, r) < Pow2(32 - r) <= B
    ensures Mul(Shl(x, 32 - r), Pow2(r)) + Mul(Shr(x, r), Pow2(r)) * B == x * B
  {
    var p, q := Pow2(r), Pow2(32 - r);
    Pow2Add(32 - r, r);
    Pow2Values();
    SplitProduct(x, q, p, B);
    FitsBelow(x % p, p, c, q);
    ModOfMultiple(x % p, q);
    OrDisjoint(x % p * q, c, 32 - r);
    OrComm(c, x % p * q);
    MulAssoc(x % p, q, p);
    Pow2Monotone(32 - r, 32);
    ShlIs(x, 32 - r);
    ShrIs(x, r);
    MulIs(Shl(x, 32 - r), p);
    MulIs(Shr(x, r), p);
    DivModOf(x, p);
  }

  // The body of the loop of >>=, for a limb whose high part lands at `to`.
  method ShiftLimbDown(pn: array<uint32>, to: nat, x: uint32, shift: nat)
    requires to < WIDTH == pn.Length && shift < 32
    requires to >= 1 ==> pn[to - 1] < Pow2(32 - shift)
    requires forall t | to <= t < WIDTH :: pn[t] == 0
    modifies pn
    ensures pn[to] < Pow2(32 - shift) && forall t | to < t < WIDTH :: pn[t] == 0
    ensures to == 0 ==> ValTo(pn[..], 1) == Shr(x, shift)
    ensures to >= 1 ==> Brought(old(pn[..]), pn[..], to, x, Pow2(shift))
  {
    ghost var s := pn[..];
    SplitDown(x, shift, if to >= 1 then pn[to - 1] else 0);
    if to >= 1 && shift != 0 {
      pn[to - 1] := Or(pn[to - 1], Shl(x, 32 - shift));
    }
    pn[to] := Or(pn[to], Shr(x, shift));
    if to >= 1 {
      Lowered(s, pn[..], to, Shl(x, 32 - shift), Shr(x, shift), x, Pow2(shift));
    }
  }

  // The limbs have gained x at `to`, and are worth a p-th of what they stand for.
  ghost predicate Brought(s: seq<uint32>, s': seq<uint32>, to: nat, x: int, p: nat)
    requires to < |s| == |s'|
  {
    Mul(ValTo(s', to + 1), p) == Mul(ValTo(s, to), p) + At(x, to)
  }

  lemma Lowered(s: seq<uint32>, s': seq<uint32>, to: nat, lo: int, hi: int, x: nat, p: nat)
    requires 1 <= to < |s| == |s'| && forall t | 0 <= t < to - 1 :: s'[t] == s[t]
    requires s'[to - 1] == s[to - 1] + lo && s'[to] == hi && Mul(lo, p) + Mul(hi, p) * B == x * B
    ensures Brought(s, s', to, x, p)
  {
    LimbsGain(s, s', to, lo, hi);
    MulAdd(ValTo(s, to) + At(lo, to - 1), At(hi, to), p);
    MulAdd(ValTo(s, to), At(lo, to - 1), p);
    LimbsMake(lo, hi, x, p, to);
  }

  lemma LimbsGain(s: seq<uint32>, s': seq<uint32>, to: nat, lo: int, hi: int)
    requires 1 <= to < |s| == |s'| && forall t | 0 <= t < to - 1 :: s'[t] == s[t]
    requires s'[to - 1] == s[to - 1] + lo && s'[to] == hi
    ensures ValTo(s', to + 1) == ValTo(s, to) + At(lo, to - 1) + At(hi, to)
  {
    ValSame(s, s', to - 1);
    AtAdd(s[to - 1], lo, to - 1);
    assert ValTo(s', to) == ValTo(s, to) + At(lo, to - 1);
  }

  lemma LimbsMake(lo: int, hi: int, x: int, p: nat, to: nat)
    requires to >= 1 && Mul(lo, p) + Mul(hi, p) * B == x * B
    ensures Mul(At(lo, to - 1), p) + Mul(At(hi, to), p) == At(x, to)
  {
    AtMul(lo, p, to - 1);
    AtMul(hi * B, p, to - 1);
    MulByB(hi, p);
    AtAdd(Mul(lo, p), Mul(hi, p) * B, to - 1);
    assert At(hi, to) == At(hi * B, to - 1) && At(x, to) == At(x * B, to - 1);
  }

  lemma {:induction false} MulByB(a: int, p: nat)
    ensures Mul(a * B, p) == Mul(a, p) * B
  {
    if p > 0 { MulByB(a, p - 1); }
  }

  lemma {:induction false} MulAdd(a: int, b: int, p: nat)
    ensures Mul(a + b, p) == Mul(a, p) + Mul(b, p)
  {
    if p > 0 { MulAdd(a, b, p - 1); }
  }

  lemma {:induction false} AtMul(a: int, p: nat, i: nat)
    ensures At(Mul(a, p), i) == Mul(At(a, i), p)
    decreases p
  {
    if p == 0 {
      AtZero(i);
    } else {
      AtMul(a, p - 1, i);
      AtAdd(Mul(a, p - 1), a, i);
    }
  }

  // The limbs v hold the value of the first n of s without its k limbs and some bits,
  // and `rest` is what those come to.
  ghost predicate Halved(s: seq<uint32>, n: nat, v: int, k: nat, p: nat, rest: int)
    requires n <= |s|
  {
    ValTo(s, n) == At(Mul(v, p), k) + rest
  }

  lemma HalvedFirst(s: seq<uint32>, k: nat, p: nat)
    requires k < |s| && p > 0
    ensures Halved(s, k + 1, s[k] / p, k, p, ValTo(s, k) + At(s[k] % p, k))
  {
    DivModOf(s[k], p);
    MulIs(s[k] / p, p);
    AtAdd(Mul(s[k] / p, p), s[k] % p, k);
  }

  lemma HalvedStep(s: seq<uint32>, n: nat, t: seq<uint32>, t': seq<uint32>, k: nat, p: nat, rest: int)
    requires k < n < |s| && n - k < |t| == |t'|
    requires Halved(s, n, ValTo(t, n - k), k, p, rest) && Brought(t, t', n - k, s[n], p)
    ensures Halved(s, n + 1, ValTo(t', n - k + 1), k, p, rest)
  {
    AtAdd(Mul(ValTo(t, n - k), p), At(s[n], n - k), k);
    AtAt(s[n], n - k, k);
  }

  lemma HalvedIs(s: seq<uint32>, v: int, k: nat, shift: nat, rest: int)
    requires Halved(s, |s|, v, k, Pow2(shift), rest) && 0 <= rest < At(Pow2(shift), k)
    ensures v == Val(s) / Pow2(32 * k + shift)
  {
    var p := Pow2(shift);
    MulIs(v, p);
    AtIs(v * p, k);
    AtIs(p, k);
    Pow2Add(shift, 32 * k);
    MulAssoc(v, p, Pow2(32 * k));
    DivModUnique(Val(s), v, rest, Pow2(32 * k + shift));
  }

  lemma RestSmall(s: seq<uint32>, k: nat, p: nat)
    requires k < |s| && p > 0
    ensures 0 <= ValTo(s, k) + At(s[k] % p, k) < At(p, k)
  {
    ValBound(s, k);
    AtZero(k);
    AtMono(0, s[k] % p, k);
    AtMono(s[k] % p + 1, p, k);
    AtAdd(s[k] % p, 1, k);
  }

  lemma AllGone(s: seq<uint32>, k: nat, shift: nat)
    requires |s| == WIDTH <= k
    ensures Val(s) / Pow2(32 * k + shift) == 0
  {
    ValRange(s);
    Pow2Monotone(32 * WIDTH, 32 * k + shift);
    DivModUnique(Val(s), 0, Val(s), Pow2(32 * k + shift));
  }

  // *this >>= shift
  method ShiftRightAssign(pn: array<uint32>, shift0: nat)
    requires pn.Length == WIDTH
    modifies pn
    ensures Val(pn[..]) == old(Val(pn[..])) / Pow2(shift0)
  {
    var a := Copy(pn);
    ghost var s := a[..];
    Clear(pn);
    var k := shift0 / 32;
    var shift := shift0 % 32;
    ghost var rest := 0;
    for i := 0 to WIDTH
      invariant a[..] == s
      invariant i <= k ==> Cleared(pn[..])
      invariant i > k ==> pn[i - k - 1] < Pow2(32 - shift) && forall t | i - k <= t < WIDTH :: pn[t] == 0
      invariant i > k ==> Halved(s, i, ValTo(pn[..], i - k), k, Pow2(shift), rest)
      invariant i > k ==> 0 <= rest < At(Pow2(shift), k)
    {
      if i >= k {
        ghost var t := pn[..];
        ShiftLimbDown(pn, i - k, a[i], shift);
        if i == k {
          ShrIs(a[i], shift);
          HalvedFirst(s, k, Pow2(shift));
          RestSmall(s, k, Pow2(shift));
          rest := ValTo(s, k) + At(s[k] % Pow2(shift), k);
        } else {
          HalvedStep(s, i, t, pn[..], k, Pow2(shift), rest);
        }
      }
    }
    if WIDTH > k {
      ValTop(pn[..], WIDTH - k, WIDTH);
      HalvedIs(s, Val(pn[..]), k, shift, rest);
    } else {
      ValTop(pn[..], 0, WIDTH);
      AllGone(s, k, shift);
    }
  }

  /******* Comparison and size *******/

  // The highest limb that differs decides.
  lemma LimbDecides(s: seq<uint32>, t: seq<uint32>, i: nat)
    requires i < |s| == |t| && s[i] < t[i] && forall k | i < k < |s| :: s[k] == t[k]
    ensures Val(s) < Val(t)
  {
    TailSame(s, t, i + 1, |s|);
    ValBound(s, i);
    ValBound(t, i);
    var x: int := s[i];
    AtMono(x + 1, t[i], i);
    AtAdd(x, 1, i);
  }

  method CompareTo(pn: array<uint32>, b: array<uint32>) returns (r: int)
    requires pn.Length == WIDTH && b.Length == WIDTH
    ensures r < 0 <==> Val(pn[..]) < Val(b[..])
    ensures r > 0 <==> Val(pn[..]) > Val(b[..])
  {
    for i := WIDTH downto 0
      invariant forall k | i <= k < WIDTH :: pn[k] == b[k]
    {
      if pn[i] < b[i] {
        LimbDecides(pn[..], b[..], i);
        return -1;
      }
      if pn[i] > b[i] {
        LimbDecides(b[..], pn[..], i);
        return 1;
      }
    }
    ValSame(pn[..], b[..], WIDTH);
    return 0;
  }

  method EqualTo(pn: array<uint32>, b: uint64) returns (r: bool)
    requires pn.Length == WIDTH
    ensures r <==> Val(pn[..]) == b
  {
    LowTwo(pn[..]);
    for i := WIDTH downto 2
      invariant forall k | i <= k < WIDTH :: pn[k] == 0
    {
      if pn[i] != 0 {
        LimbIsLarge(pn[..], i);
        return false;
      }
    }
    ValTop(pn[..], 2, WIDTH);
    return pn[1] == High(b) && pn[0] == Low(b);
  }

  lemma LimbIsLarge(s: seq<uint32>, i: nat)
    requires 2 <= i < |s| && s[i] != 0
    ensures Val(s) >= B * B
  {
    var z := s[i := 0];
    TailSame(z, s, i + 1, |s|);
    ValSame(s, z, i);
    AtZero(i);
    AtMono(1, s[i], i);
    ValBound(z, |z|);
    AtAt(1, i - 2, 2);
    ValBound([], 0);
    AtMono(0, 1, i - 2);
    AtPositive(i - 2);
    AtMono(1, At(1, i - 2), 2);
    AtAt(1, 2, i - 2);
    assert At(1, 2) == At(B, 1) == At(B * B, 0);
  }

  lemma {:induction false} AtPositive(i: nat)
    ensures At(1, i) >= 1
  {
    if i > 0 {
      AtPositive(i - 1);
      AtMono(1, B, i - 1);
    }
  }

  // The value has exactly n bits.
  ghost predicate HasBits(x: int, n: nat) {
    if n == 0 then x == 0 else Pow2(n - 1) <= x < Pow2(n)
  }

  // The inner loop of bits().
  method LimbBits(x: uint32) returns (n: nat)
    requires x != 0
    ensures 1 <= n <= 32 && HasBits(x, n)
  {
    Pow2Values();
    for bits := 32 downto 1
      invariant x < Pow2(bits)
    {
      if x / Pow2(bits) % 2 == 1 {
        BitSet(x, bits);
        return bits + 1;
      }
      BitClear(x, bits);
    }
    assert Pow2(1) == 2 * Pow2(0) && Pow2(0) == 1;
    return 1;
  }

  // bits(): the position of the highest bit set, plus one.
  method Bits(pn: array<uint32>) returns (r: nat)
    requires pn.Length == WIDTH
    ensures r <= 32 * WIDTH && HasBits(Val(pn[..]), r)
  {
    for pos := WIDTH downto 0
      invariant forall k | pos <= k < WIDTH :: pn[k] == 0
    {
      if pn[pos] != 0 {
        var n := LimbBits(pn[pos]);
        TopLimb(pn[..], pos, n);
        return 32 * pos + n;
      }
    }
    ValTop(pn[..], 0, WIDTH);
    return 0;
  }

  lemma BitSet(x: nat, k: nat)
    requires x / Pow2(k) % 2 == 1
    ensures x >= Pow2(k)
  {
    if x < Pow2(k) { DivModUnique(x, 0, x, Pow2(k)); }
  }

  lemma BitClear(x: nat, k: nat)
    requires x < Pow2(k + 1) && x / Pow2(k) % 2 != 1
    ensures x < Pow2(k)
  {
    if x >= Pow2(k) { DivModUnique(x, 1, x - Pow2(k), Pow2(k)); }
  }

  lemma TopLimb(s: seq<uint32>, pos: nat, n: nat)
    requires pos < |s| && 1 <= n <= 32 && HasBits(s[pos], n) && forall k | pos < k < |s| :: s[k] == 0
    ensures HasBits(Val(s), 32 * pos + n)
  {
    ValTop(s, pos + 1, |s|);
    ValBound(s, pos);
    var x: int := s[pos];
    AtMono(Pow2(n - 1), x, pos);
    AtMono(x + 1, Pow2(n), pos);
    AtAdd(x, 1, pos);
    AtIs(Pow2(n - 1), pos);
    AtIs(Pow2(n), pos);
    Pow2Add(n - 1, 32 * pos);
    Pow2Add(n, 32 * pos);
  }

  /******* Division *******/

  // Before the round for bit `shift`: the quotient so far has only higher bits, and
  // the rest of the numerator is too small for any of those.
  ghost predicate Dividing(n: int, d: nat, q: int, rest: int, shift: int)
    requires shift >= -1
  {
    n == Mul(q, d) + rest && 0 <= rest < Mul(d, Pow2(shift + 1))
  }

  lemma DividingStarts(n: int, d: nat, nBits: nat, dBits: nat)
    requires HasBits(n, nBits) && HasBits(d, dBits) && 0 < dBits <= nBits <= 32 * WIDTH
    ensures Dividing(n, d, 0, n, nBits - dBits)
  {
    var s := nBits - dBits;
    Pow2Add(dBits - 1, s + 1);
    MulMono(Pow2(dBits - 1), d, Pow2(s + 1));
    MulIs(d, Pow2(s + 1));
    MulIs(0, d);
  }

  // Moving the divisor up to the numerator loses no bit.
  lemma DivisorFits(d: nat, nBits: nat, dBits: nat)
    requires HasBits(d, dBits) && 0 < dBits <= nBits <= 32 * WIDTH
    ensures d * Pow2(nBits - dBits) % Modulus() == Mul(d, Pow2(nBits - dBits))
  {
    var s := nBits - dBits;
    Pow2Add(dBits, s);
    MulMono(d, Pow2(dBits) - 1, Pow2(s));
    Distribute(Pow2(dBits), -1, Pow2(s));
    MulIs(d, Pow2(s));
    Pow2Monotone(nBits, 32 * WIDTH);
    assert 0 <= d * Pow2(s);
    DivModUnique(d * Pow2(s), 0, d * Pow2(s), Modulus());
  }

  lemma DividingTakes(n: int, d: nat, q: int, rest: int, shift: nat)
    requires Dividing(n, d, q, rest, shift)
    ensures var part := Mul(d, Pow2(shift));
            if rest >= part then Dividing(n, d, q + Pow2(shift), rest - part, shift - 1) else Dividing(n, d, q, rest, shift - 1)
  {
    var p := Pow2(shift);
    MulAdd(q, p, d);
    MulIs(p, d);
    MulIs(d, p);
    MulIs(d, 2 * p);
    assert d * (2 * p) == 2 * (d * p) && p * d == d * p;
  }

  lemma DividingEnds(n: int, d: nat, q: int, rest: int)
    requires Dividing(n, d, q, rest, -1) && d > 0
    ensures q == n / d
  {
    assert Pow2(0) == 1;
    MulIs(d, 1);
    MulIs(q, d);
    DivModUnique(n, q, rest, d);
  }

  // No bit below n is set.
  ghost predicate Aligned(s: seq<uint32>, n: nat) {
    && (forall k | 0 <= k < |s| && 32 * k + 32 <= n :: s[k] == 0)
    && (n / 32 < |s| ==> s[n / 32] % Pow2(n % 32) == 0)
  }

  lemma AlignedDown(s: seq<uint32>, n: nat)
    requires n > 0 && Aligned(s, n) && n <= 32 * |s|
    ensures Aligned(s, n - 1) && (n - 1) / 32 < |s|
    ensures s[(n - 1) / 32] % Pow2((n - 1) % 32 + 1) == 0
  {
    var w, t := (n - 1) / 32, (n - 1) % 32;
    Pow2Values();
    if n % 32 == 0 {
      assert 32 * w + 32 == n && s[w] == 0;
    } else {
      assert n / 32 == w && n % 32 == t + 1;
    }
    HalfMod(s[w], Pow2(t));
  }

  lemma HalfMod(x: nat, p: nat)
    requires p > 0 && x % (2 * p) == 0
    ensures x % p == 0
  {
    DivModOf(x, 2 * p);
    var q := x / (2 * p);
    assert q * (2 * p) == (q * 2) * p;
    ModOfMultiple(q * 2, p);
  }

  // Setting bit t of a limb that has none as low.
  lemma SetBit(x: uint32, t: nat)
    requires t < 32 && x % Pow2(t + 1) == 0
    ensures Or(x, Pow2(t)) == x + Pow2(t) < B && (x + Pow2(t)) % Pow2(t) == 0
  {
    OrDisjoint(x, Pow2(t), t + 1);
    Pow2Add(31 - t, t + 1);
    Pow2Values();
    OddMultiple(x, Pow2(t), Pow2(31 - t));
  }

  lemma OddMultiple(x: nat, p: nat, h: nat)
    requires p > 0 && x % (2 * p) == 0 && x < h * (2 * p)
    ensures x + p < h * (2 * p) && (x + p) % p == 0
  {
    DivModOf(x, 2 * p);
    var q := x / (2 * p);
    FitsBelow(q, h, p, 2 * p);
    assert x + p == (2 * q + 1) * p by { MulAssoc(q, 2, p); Distribute(2 * q, 1, p); }
    ModOfMultiple(2 * q + 1, p);
  }

  // The bit of weight 2^shift is set in the quotient.
  method SetQuotientBit(pn: array<uint32>, shift: nat)
    requires pn.Length == WIDTH && shift < 32 * WIDTH && Aligned(pn[..], shift + 1)
    modifies pn
    ensures Aligned(pn[..], shift) && Val(pn[..]) == old(Val(pn[..])) + Pow2(shift)
  {
    ghost var s := pn[..];
    var w, t := shift / 32, shift % 32;
    AlignedDown(s, shift + 1);
    SetBit(s[w], t);
    pn[w] := Or(pn[w], Pow2(t));
    AlignedSet(s, pn[..], w, t);
    LimbRaised(s, pn[..], w, t);
  }

  lemma AlignedSet(s: seq<uint32>, s': seq<uint32>, w: nat, t: nat)
    requires w < |s| == |s'| && t < 32 && Aligned(s, 32 * w + t) && s' == s[w := s'[w]] && s'[w] % Pow2(t) == 0
    ensures Aligned(s', 32 * w + t)
  {
    var n := 32 * w + t;
    assert n / 32 == w && n % 32 == t;
    forall k | 0 <= k < |s'| && 32 * k + 32 <= n ensures s'[k] == 0 {
      assert k < w;
    }
  }

  lemma LimbRaised(s: seq<uint32>, s': seq<uint32>, w: nat, t: nat)
    requires w < |s| == |s'| && s' == s[w := s'[w]] && s'[w] == s[w] + Pow2(t)
    ensures Val(s') == Val(s) + Pow2(32 * w + t)
  {
    TailSame(s, s', w + 1, |s|);
    ValSame(s, s', w);
    AtAdd(s[w], Pow2(t), w);
    AtIs(Pow2(t), w);
    Pow2Add(t, 32 * w);
  }

  // One round: the divisor, at its place, is taken off the numerator if it can be.
  method DivideBit(pn: array<uint32>, num: array<uint32>, div: array<uint32>, shift: nat, ghost n: int, ghost d: nat)
    requires pn.Length == WIDTH && num.Length == WIDTH && div.Length == WIDTH && pn != num && pn != div && num != div
    requires shift < 32 * WIDTH && Aligned(pn[..], shift + 1) && Val(div[..]) == Mul(d, Pow2(shift))
    requires Dividing(n, d, Val(pn[..]), Val(num[..]), shift)
    modifies pn, num
    ensures Aligned(pn[..], shift) && Dividing(n, d, Val(pn[..]), Val(num[..]), shift - 1)
  {
    DividingTakes(n, d, Val(pn[..]), Val(num[..]), shift);
    var c := CompareTo(num, div);
    if c >= 0 {
      NoBorrow(num[..], div[..]);
      SubAssign(num, div);
      SetQuotientBit(pn, shift);
    } else {
      AlignedDown(pn[..], shift + 1);
    }
  }

  lemma NoBorrow(s: seq<uint32>, t: seq<uint32>)
    requires |s| == |t| == WIDTH && Val(s) >= Val(t)
    ensures (Val(s) - Val(t)) % Modulus() == Val(s) - Val(t)
  {
    ValRange(s);
    ValRange(t);
    DivModUnique(Val(s) - Val(t), 0, Val(s) - Val(t), Modulus());
  }

  // *this /= b; false stands for the exception.
  method DivAssign(pn: array<uint32>, b: array<uint32>) returns (ok: bool)
    requires pn.Length == WIDTH && b.Length == WIDTH
    modifies pn
    ensures ok <==> old(Val(b[..])) != 0
    ensures ok ==> Val(pn[..]) == old(Val(pn[..])) / old(Val(b[..]))
  {
    var div := Copy(b);
    var num := Copy(pn);
    ValRange(div[..]);
    ghost var n: int, d: nat := Val(num[..]), Val(div[..]);
    Assign(pn, 0);
    ValClear(pn[..], WIDTH);
    var numBits := Bits(num);
    var divBits := Bits(div);
    if divBits == 0 {
      return false;
    }
    if divBits > numBits {
      SmallNumerator(n, d, numBits, divBits);
      return true;
    }
    DividingStarts(n, d, numBits, divBits);
    DivisorFits(d, numBits, divBits);
    ShiftLeftAssign(div, numBits - divBits);
    DivideBits(pn, num, div, numBits - divBits, n, d);
    return true;
  }

  // The loop of the division.
  method DivideBits(pn: array<uint32>, num: array<uint32>, div: array<uint32>, shift0: nat, ghost n: int, ghost d: nat)
    requires pn.Length == WIDTH && num.Length == WIDTH && div.Length == WIDTH && pn != num && pn != div && num != div
    requires shift0 < 32 * WIDTH && Cleared(pn[..]) && d > 0 && Val(div[..]) == Mul(d, Pow2(shift0))
    requires Dividing(n, d, 0, Val(num[..]), shift0)
    modifies pn, num, div
    ensures Val(pn[..]) == n / d
  {
    var shift: int := shift0;
    ValTop(pn[..], 0, WIDTH);
    ClearAligned(pn[..], shift0 + 1);
    while shift >= 0
      invariant -1 <= shift < 32 * WIDTH
      invariant Aligned(pn[..], shift + 1) && Dividing(n, d, Val(pn[..]), Val(num[..]), shift)
      invariant shift >= 0 ==> Val(div[..]) == Mul(d, Pow2(shift))
    {
      DivideBit(pn, num, div, shift, n, d);
      ShiftRightAssign(div, 1);
      HalfShift(d, shift);
      shift := shift - 1;
    }
    DividingEnds(n, d, Val(pn[..]), Val(num[..]));
  }

  lemma ClearAligned(s: seq<uint32>, n: nat)
    requires Cleared(s)
    ensures Aligned(s, n)
  {
    DivModUnique(0, 0, 0, Pow2(n % 32));
  }

  lemma SmallNumerator(n: int, d: int, nBits: nat, dBits: nat)
    requires HasBits(n, nBits) && HasBits(d, dBits) && dBits > nBits
    ensures n / d == 0
  {
    if nBits > 0 { Pow2Monotone(nBits, dBits - 1); }
    DivModUnique(n, 0, n, d);
  }

  lemma HalfShift(d: nat, shift: nat)
    ensures shift > 0 ==> Mul(d, Pow2(shift)) / Pow2(1) == Mul(d, Pow2(shift - 1))
  {
    if shift > 0 {
      var p := Pow2(shift - 1);
      assert Pow2(1) == 2 * Pow2(0) && Pow2(0) == 1;
      MulIs(d, p);
      MulIs(d, 2 * p);
      assert d * (2 * p) == 2 * (d * p);
    }
  }
}
