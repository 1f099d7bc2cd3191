// The compact form of a 256-bit target and the work of a block: SetCompact and
// GetCompact of src/arith_uint256.cpp, GetBlockProof of src/chain.cpp.

module CompactTarget {
  import opened Arithmetic
  import opened ArithUint256

  /******* What a code stands for *******/

  // The fields of a code: eight bits of size, a sign bit, 23 bits of mantissa.
  function Size(c: uint32): nat { c / 0x100_0000 }
  function Sign(c: uint32): bool { c / 0x80_0000 % 2 == 1 }
  function Mantissa(c: uint32): nat { c % 0x80_0000 }

  // mantissa * 256^(size - 3), without what falls below one.
  function Expanded(c: uint32): int {
    if Size(c) <= 3 then Mantissa(c) / Pow2(8 * (3 - Size(c))) else Mantissa(c) * Pow2(8 * (Size(c) - 3))
  }

  // One unit of the mantissa.
  function Unit(c: uint32): nat {
    if Size(c) <= 3 then 1 else Pow2(8 * (Size(c) - 3))
  }

  lemma Fields(size: nat, mantissa: nat)
    requires size < 256 && mantissa < 0x80_0000
    ensures var c: uint32 := size * 0x100_0000 + mantissa;
            Size(c) == size && !Sign(c) && Mantissa(c) == mantissa
  {
  }

  /******* SetCompact *******/

  // The guard of the overflow flag against the size of what the code stands for.
  lemma OverflowGuard(word: nat, size: nat)
    requires word < 0x80_0000 && size > 3
    ensures word * Pow2(8 * (size - 3)) >= Modulus() <==>
              word != 0 && (size > 34 || (word > 0xff && size > 33) || (word > 0xffff && size > 32))
  {
    Pow2Values();
    if size > 34 {
      Pow2Monotone(256, 8 * (size - 3));
      if word != 0 { MulMono(1, word, Pow2(8 * (size - 3))); }
    } else if size == 34 {
      Scale(word, 8, 248);
    } else if size == 33 {
      Scale(word, 16, 240);
    } else {
      Scale(word, 24, 232);
      Pow2Monotone(8 * (size - 3), 232);
      MulMono2(word, Pow2(8 * (size - 3)), Pow2(232));
    }
  }

  lemma MulMono2(a: nat, b: nat, c: nat)
    requires b <= c
    ensures a * b <= a * c
  {
  }

  lemma Scale(word: nat, a: nat, b: nat)
    requires a + b == 256
    ensures word * Pow2(b) >= Pow2(256) <==> word >= Pow2(a)
  {
    Pow2Add(a, b);
    if word >= Pow2(a) {
      MulMono(Pow2(a), word, Pow2(b));
    } else {
      MulMono(word + 1, Pow2(a), Pow2(b));
      Distribute(word, 1, Pow2(b));
    }
  }

  // The flags are exact: negative means a negative number other than zero, overflow
  // that the number has more than 256 bits.
  method SetCompact(nCompact: uint32) returns (r: array<uint32>, fNegative: bool, fOverflow: bool)
    ensures fresh(r) && r.Length == WIDTH && Val(r[..]) == Expanded(nCompact) % Modulus()
    ensures fNegative <==> Sign(nCompact) && Expanded(nCompact) != 0
    ensures fOverflow <==> Expanded(nCompact) >= Modulus()
  {
    var nSize := nCompact / 0x100_0000;
    var nWord: uint64 := nCompact % 0x80_0000;
    ghost var mantissa: nat := nWord;
    if nSize <= 3 {
      ShrIs(nWord, 8 * (3 - nSize));
      ShrLess(nWord, 8 * (3 - nSize));
      nWord := Shr(nWord, 8 * (3 - nSize));
      r := New(nWord);
      SmallFits(nWord);
    } else {
      r := New(nWord);
      ShiftLeftAssign(r, 8 * (nSize - 3));
      OverflowGuard(mantissa, nSize);
      ProductNonzero(mantissa, Pow2(8 * (nSize - 3)));
    }
    fNegative := nWord != 0 && nCompact / 0x80_0000 % 2 == 1;
    fOverflow := nWord != 0 && (nSize > 34 || (nWord > 0xff && nSize > 33) || (nWord > 0xffff && nSize > 32));
  }

  lemma ProductNonzero(a: nat, p: nat)
    requires p > 0
    ensures a * p != 0 <==> a != 0
  {
  }

  lemma {:induction false} ShrLess(x: nat, k: nat)
    ensures Shr(x, k) <= x
    decreases k
  {
    if k > 0 { ShrLess(x / 2, k - 1); }
  }

  lemma SmallFits(x: nat)
    requires x < 0x80_0000
    ensures x < Modulus() && x % Modulus() == x
  {
    Pow2Values();
    Pow2Monotone(23, 256);
    DivModUnique(x, 0, x, Modulus());
  }

  /******* GetCompact *******/

  // The number has exactly n bytes.
  ghost predicate HasBytes(x: int, n: nat) {
    if n == 0 then x == 0 else Pow2(8 * (n - 1)) <= x < Pow2(8 * n)
  }

  lemma BytesOfBits(x: nat, bits: nat)
    requires HasBits(x, bits)
    ensures HasBytes(x, (bits + 7) / 8)
  {
    if bits > 0 {
      var n := (bits + 7) / 8;
      Pow2Monotone(8 * (n - 1), bits - 1);
      Pow2Monotone(bits, 8 * n);
    }
  }

  lemma BytesUnique(x: nat, m: nat, n: nat)
    requires HasBytes(x, m) && HasBytes(x, n)
    ensures m == n
  {
    if m < n { Pow2Monotone(8 * m, 8 * (n - 1)); }
    if n < m { Pow2Monotone(8 * n, 8 * (m - 1)); }
  }

  // The first three bytes of a number of n bytes.
  function Leading(x: int, n: nat): int {
    if n <= 3 then x * Pow2(8 * (3 - n)) else x / Pow2(8 * (n - 3))
  }

  lemma LeadingRange(x: nat, n: nat)
    requires HasBytes(x, n)
    ensures n == 0 ==> Leading(x, n) == 0
    ensures n > 0 ==> 0x1_0000 <= Leading(x, n) < 0x100_0000
  {
    Pow2Values();
    if 0 < n <= 3 {
      var p := Pow2(8 * (3 - n));
      Pow2Add(8 * (n - 1), 8 * (3 - n));
      Pow2Add(8 * n, 8 * (3 - n));
      MulMono(Pow2(8 * (n - 1)), x, p);
      MulMono(x + 1, Pow2(8 * n), p);
      Distribute(x, 1, p);
    } else if n > 3 {
      var p := Pow2(8 * (n - 3));
      Pow2Add(16, 8 * (n - 3));
      Pow2Add(24, 8 * (n - 3));
      QuotientRange(x, p, 0x1_0000, 0x100_0000);
    }
  }

  lemma QuotientRange(x: nat, p: nat, lo: nat, hi: nat)
    requires p > 0 && lo * p <= x < hi * p
    ensures lo <= x / p < hi
  {
    DivModOf(x, p);
    if x / p < lo {
      MulMono(x / p + 1, lo, p);
      Distribute(x / p, 1, p);
    }
    if x / p >= hi { MulMono(hi, x / p, p); }
  }

  // The code of a number of n bytes, without a sign: its leading bytes, or one fewer
  // where the first would reach into the sign bit.
  ghost function CodeOf(x: nat, n: nat): (c: uint32)
    requires HasBytes(x, n) && n <= 32
  {
    LeadingRange(x, n);
    if Leading(x, n) >= 0x80_0000 then (n + 1) * 0x100_0000 + Leading(x, n) / 256 else n * 0x100_0000 + Leading(x, n)
  }

  // The code with the sign bit, which a mantissa of zero does not take.
  ghost function Signed(c: uint32, fNegative: bool): int {
    if fNegative && Mantissa(c) != 0 then c + 0x80_0000 else c
  }

  ghost predicate Encodes(c: int, x: nat, fNegative: bool) {
    forall n: nat | n <= 32 && HasBytes(x, n) :: c == Signed(CodeOf(x, n), fNegative)
  }

  // The fields that make up the code of a number of n bytes.
  lemma Assembled(x: nat, n: nat, nSize: nat, word: nat, fNegative: bool)
    requires HasBytes(x, n) && n <= 32
    requires if Leading(x, n) >= 0x80_0000 then nSize == n + 1 && word == Leading(x, n) / 256 else nSize == n && word == Leading(x, n)
    ensures word < 0x80_0000 && nSize < 256
    ensures Encodes(nSize * 0x100_0000 + word + if fNegative && word != 0 then 0x80_0000 else 0, x, fNegative)
  {
    LeadingRange(x, n);
    Fields(nSize, word);
    forall m: nat | m <= 32 && HasBytes(x, m) ensures m == n { BytesUnique(x, m, n); }
  }

  // GetCompact; its two asserts hold.
  method GetCompact(pn: array<uint32>, fNegative: bool) returns (nCompact: uint32, ghost bytes: nat)
    requires pn.Length == WIDTH
    ensures Val(pn[..]) >= 0 && bytes <= 32 && HasBytes(Val(pn[..]), bytes)
    ensures Encodes(nCompact, Val(pn[..]), fNegative)
  {
    ValRange(pn[..]);
    ghost var x: nat := Val(pn[..]);
    var bits := Bits(pn);
    var nSize := (bits + 7) / 8;
    bytes := nSize;
    BytesOfBits(x, bits);
    LeadingRange(x, nSize);
    var word := LeadingBytes(pn, nSize);
    if word / 0x80_0000 % 2 == 1 {
      word := word / 256;
      nSize := nSize + 1;
    }
    Assembled(x, bytes, nSize, word, fNegative);
    assert word < 0x80_0000;
    assert nSize < 256;
    nCompact := nSize * 0x100_0000 + word;
    if fNegative && word != 0 {
      nCompact := nCompact + 0x80_0000;
    }
  }

  // GetLow64() << 8 * (3 - nSize), or GetLow64() of the value shifted down.
  method LeadingBytes(pn: array<uint32>, nSize: nat) returns (word: uint32)
    requires pn.Length == WIDTH && Val(pn[..]) >= 0 && HasBytes(Val(pn[..]), nSize)
    ensures word == Leading(Val(pn[..]), nSize)
  {
    ghost var x: nat := Val(pn[..]);
    LeadingRange(x, nSize);
    Pow2Values();
    if nSize <= 3 {
      SmallBytes(x, nSize);
      LowIsAll(pn[..]);
      word := (pn[0] + pn[1] * B) * Pow2(8 * (3 - nSize));
    } else {
      var bn := Copy(pn);
      ShiftRightAssign(bn, 8 * (nSize - 3));
      LowIsAll(bn[..]);
      word := bn[0] + bn[1] * B;
    }
  }

  lemma SmallBytes(x: nat, n: nat)
    requires HasBytes(x, n) && n <= 3
    ensures x < 0x100_0000
  {
    Pow2Values();
    if n > 0 { Pow2Monotone(8 * n, 24); }
  }

  // A value below 2^24 is in the lowest limbs, which GetLow64 reads.
  lemma LowIsAll(s: seq<uint32>)
    requires |s| == WIDTH && 0 <= Val(s) < 0x100_0000
    ensures s[0] + s[1] * B == Val(s)
  {
    LowTwo(s);
    forall k | 2 <= k < WIDTH ensures s[k] == 0 {
      if s[k] != 0 { LimbIsLarge(s, k); }
    }
    ValTop(s, 2, WIDTH);
  }

  /******* Going there and back *******/

  // What the code of a number stands for is that number with all but its leading
  // bytes cleared: never more, and less by under one unit of the mantissa.
  lemma CodeStandsFor(x: nat, n: nat)
    requires HasBytes(x, n) && n <= 32
    ensures var c := CodeOf(x, n); !Sign(c) && Expanded(c) <= x < Expanded(c) + Unit(c)
  {
    LeadingRange(x, n);
    if Leading(x, n) >= 0x80_0000 { HighCode(x, n); } else { PlainCode(x, n); }
  }

  lemma PlainCode(x: nat, n: nat)
    requires HasBytes(x, n) && n <= 32 && 0 <= Leading(x, n) < 0x80_0000
    ensures var c: uint32 := n * 0x100_0000 + Leading(x, n); !Sign(c) && Expanded(c) <= x < Expanded(c) + Unit(c)
  {
    Fields(n, Leading(x, n));
    if n <= 3 {
      ModOfMultiple(x, Pow2(8 * (3 - n)));
    } else {
      DivModOf(x, Pow2(8 * (n - 3)));
    }
  }

  lemma HighCode(x: nat, n: nat)
    requires HasBytes(x, n) && n <= 32 && 0x80_0000 <= Leading(x, n) < 0x100_0000
    ensures var c: uint32 := (n + 1) * 0x100_0000 + Leading(x, n) / 256;
            !Sign(c) && Expanded(c) <= x < Expanded(c) + Unit(c)
  {
    Fields(n + 1, Leading(x, n) / 256);
    LeadingRange(x, n);
    if n <= 2 { ShortCode(x, n); } else { LongCode(x, n); }
  }

  lemma ShortCode(x: nat, n: nat)
    requires HasBytes(x, n) && 1 <= n <= 2
    ensures Leading(x, n) / 256 / Pow2(8 * (2 - n)) == x
  {
    Pow2Values();
    Pow2Add(8, 8 * (2 - n));
    var p := Pow2(8 * (2 - n));
    assert Leading(x, n) == x * p * 256 by { MulAssoc(x, p, 256); }
    ModOfMultiple(x * p, 256);
    ModOfMultiple(x, p);
  }

  lemma LongCode(x: nat, n: nat)
    requires HasBytes(x, n) && n >= 3
    ensures var p := Pow2(8 * (n - 2)); Leading(x, n) / 256 == x / p && x / p * p <= x < x / p * p + p
  {
    Pow2Values();
    DivModOf(x, Pow2(8 * (n - 2)));
    if n > 3 {
      Pow2Add(8 * (n - 3), 8);
      DivDiv(x, Pow2(8 * (n - 3)), 256);
    } else {
      assert Pow2(0) == 1;
    }
  }

  // The code is made of the leading bytes alone.
  lemma SameCode(x: int, y: int, n: nat)
    requires HasBytes(x, n) && HasBytes(y, n) && n <= 32
    requires Leading(y, n) == Leading(x, n) ||
             (Leading(x, n) >= 0x80_0000 && Leading(y, n) == Leading(x, n) / 256 * 256)
    ensures CodeOf(y, n) == CodeOf(x, n)
  {
  }

  lemma Truncated(x: nat, n: nat, p: nat)
    requires n > 3 && HasBytes(x, n) && p == Pow2(8 * (n - 3))
    ensures HasBytes(Leading(x, n) * p, n) && Leading(Leading(x, n) * p, n) == Leading(x, n)
  {
    var m := Leading(x, n);
    LeadingRange(x, n);
    Pow2Values();
    DivModOf(x, p);
    ModOfMultiple(m, p);
    Pow2Add(16, 8 * (n - 3));
    MulMono(0x1_0000, m, p);
  }

  lemma TruncatedMore(x: nat, n: nat, q: nat)
    requires n >= 3 && HasBytes(x, n) && q == Pow2(8 * (n - 2)) && Leading(x, n) >= 0x80_0000
    ensures HasBytes(x / q * q, n) && Leading(x / q * q, n) == Leading(x, n) / 256 * 256
  {
    LongCode(x, n);
    Pow2Values();
    var k := x / q;
    assert k >= 0x8000;
    Pow2Add(8, 8 * (n - 2));
    MulMono(256, k, q);
    if n > 3 {
      var p := Pow2(8 * (n - 3));
      Pow2Add(8, 8 * (n - 3));
      assert q == 256 * p;
      MulAssoc(k, 256, p);
      ModOfMultiple(k * 256, p);
    } else {
      assert Pow2(0) == 1;
    }
  }

  // Coding what a code stands for gives the code again.
  lemma CodeStable(x: nat, n: nat)
    requires HasBytes(x, n) && n <= 32
    ensures var y := Expanded(CodeOf(x, n)); HasBytes(y, n) && CodeOf(y, n) == CodeOf(x, n)
  {
    LeadingRange(x, n);
    var m, y := Leading(x, n), Expanded(CodeOf(x, n));
    if m >= 0x80_0000 {
      Fields(n + 1, m / 256);
      if n <= 2 {
        ShortCode(x, n);
      } else {
        LongCode(x, n);
        TruncatedMore(x, n, Pow2(8 * (n - 2)));
        SameCode(x, y, n);
      }
    } else {
      Fields(n, m);
      if n <= 3 {
        ModOfMultiple(x, Pow2(8 * (3 - n)));
      } else {
        Truncated(x, n, Pow2(8 * (n - 3)));
        SameCode(x, y, n);
      }
    }
  }

  // SetCompact after GetCompact: not negative, no overflow, at most the number and
  // less than a unit of the mantissa below it; and GetCompact gives the same again.
  method ThereAndBack(pn: array<uint32>) returns (c: uint32, r: array<uint32>, again: uint32)
    requires pn.Length == WIDTH
    ensures r.Length == WIDTH && Val(r[..]) <= Val(pn[..]) < Val(r[..]) + Unit(c)
    ensures Val(r[..]) == Expanded(c) < Modulus() && !Sign(c) && again == c
  {
    var fNegative, fOverflow;
    ghost var n, k;
    c, n := GetCompact(pn, false);
    ValRange(pn[..]);
    Back(Val(pn[..]), n);
    r, fNegative, fOverflow := SetCompact(c);
    again, k := GetCompact(r, false);
    BytesUnique(Val(r[..]), n, k);
  }

  lemma Back(x: nat, n: nat)
    requires HasBytes(x, n) && n <= 32 && x < Modulus()
    ensures var c := CodeOf(x, n); var y := Expanded(c);
            && !Sign(c) && y <= x < y + Unit(c) && y % Modulus() == y < Modulus()
            && HasBytes(y, n) && CodeOf(y, n) == c
  {
    CodeStandsFor(x, n);
    CodeStable(x, n);
    NonNegative(CodeOf(x, n));
    NoReduction(Expanded(CodeOf(x, n)));
  }

  lemma NoReduction(x: int)
    ensures 0 <= x < Modulus() ==> x % Modulus() == x
  {
    if 0 <= x < Modulus() { DivModUnique(x, 0, x, Modulus()); }
  }

  /******* The work of a block *******/

  // A target is never the largest number, so that one more does not wrap.
  lemma TargetNotLargest(c: uint32)
    ensures Expanded(c) != Modulus() - 1
  {
    if Size(c) <= 3 { SmallTarget(c); } else { LargeTarget(c); }
  }

  lemma SmallTarget(c: uint32)
    requires Size(c) <= 3
    ensures Expanded(c) < Modulus() - 1
  {
    Pow2Values();
    Pow2Monotone(24, 256);
    ShrIs(Mantissa(c), 8 * (3 - Size(c)));
    ShrLess(Mantissa(c), 8 * (3 - Size(c)));
  }

  lemma LargeTarget(c: uint32)
    requires Size(c) > 3
    ensures Expanded(c) != Modulus() - 1
  {
    Pow2Values();
    Pow2Add(8, 8 * (Size(c) - 4));
    Pow2Add(8, 248);
    MultipleNotLargest(Mantissa(c), Pow2(8 * (Size(c) - 4)), Pow2(248));
  }

  lemma MultipleNotLargest(m: int, p: int, h: int)
    ensures m * (256 * p) != 256 * h - 1
  {
    assert m * (256 * p) == 256 * (m * p);
  }

  // 2^256 / (t + 1), although 2^256 is out of range.
  lemma WorkWithin(m: int, t: int)
    requires 0 < t < m
    ensures m / (t + 1) == (m - 1 - t) / (t + 1) + 1 && 0 <= m / (t + 1) < m
  {
    DivAdd(m - 1 - t, 1, t + 1);
    DivModOf(m, t + 1);
    var q := m / (t + 1);
    if q >= m { MulMono(m, q, t + 1); MulMono2(m, 2, t + 1); }
  }

  method GetBlockProof(nBits: uint32) returns (r: array<uint32>)
    ensures r.Length == WIDTH
    ensures var t := Expanded(nBits);
            Val(r[..]) == if t == 0 || Sign(nBits) || t >= Modulus() then 0 else Modulus() / (t + 1)
  {
    var bnTarget, fNegative, fOverflow := SetCompact(nBits);
    ghost var t := Expanded(nBits);
    ValRange(bnTarget[..]);
    NonNegative(nBits);
    NoReduction(t);
    var zero := EqualTo(bnTarget, 0);
    if fNegative || fOverflow || zero {
      r := New(0);
      return;
    }
    TargetNotLargest(nBits);
    r := Work(bnTarget);
  }

  // ~target / (target + 1) + 1
  method Work(bnTarget: array<uint32>) returns (r: array<uint32>)
    requires bnTarget.Length == WIDTH && 0 < Val(bnTarget[..]) < Modulus() - 1
    ensures r.Length == WIDTH && Val(r[..]) == Modulus() / (Val(bnTarget[..]) + 1)
  {
    ghost var t := Val(bnTarget[..]);
    WorkWithin(Modulus(), t);
    NoReduction(t + 1);
    NoReduction(Modulus() / (t + 1));
    var one := New(1);
    var next := Copy(bnTarget);
    AddAssign(next, one);
    r := Complement(bnTarget);
    var ok := DivAssign(r, next);
    AddAssign(r, one);
  }

  lemma NonNegative(c: uint32)
    ensures Expanded(c) >= 0
  {
    if Size(c) <= 3 {
      ShrIs(Mantissa(c), 8 * (3 - Size(c)));
    } else {
      MulMono(0, Mantissa(c), Pow2(8 * (Size(c) - 3)));
    }
  }
}
