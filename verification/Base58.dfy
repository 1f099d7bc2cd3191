// Base58 of src/base58.cpp: EncodeBase58, DecodeBase58 and their checked forms, with
// the buffers that hold the digits.

module Base58 {
  import opened Options
  import opened Arithmetic

  type byte = x: int | 0 <= x < 256

  /******* Numbers and digits *******/

  // The number x with digits written after it.
  function Fold(x: nat, digits: seq<byte>, base: nat): nat
    decreases |digits|
  {
    if digits == [] then x else Fold(x * base + digits[0], digits[1..], base)
  }

  // The number that digits stand for, the most significant first.
  function Number(digits: seq<byte>, base: nat): nat { Fold(0, digits, base) }

  ghost predicate Below(digits: seq<byte>, base: nat) {
    forall k | 0 <= k < |digits| :: digits[k] < base
  }

  // The digits of a number, without leading zeros.
  function Digits(x: nat, base: nat): (d: seq<byte>)
    requires 2 <= base <= 256
    ensures Below(d, base) && (d != [] ==> d[0] != 0)
  {
    if x == 0 then []
    else
      DivSmaller(x, base);
      Digits(x / base, base) + [x % base]
  }

  lemma DivSmaller(x: nat, base: nat)
    requires x > 0 && base >= 2
    ensures 0 <= x / base < x && 0 <= x % base < base && x == x / base * base + x % base
  {
    DivModOf(x, base);
    var q := x / base;
    if q >= x { MulMono(x, q, base); MulMono(2, base, x); }
    if q < 0 { MulMono(q, -1, base); }
  }

  lemma {:induction false} FoldAppend(x: nat, a: seq<byte>, b: seq<byte>, base: nat)
    ensures Fold(x, a + b, base) == Fold(Fold(x, a, base), b, base)
    decreases |a|
  {
    if a == [] {
      assert a + b == b;
    } else {
      FoldAppend(x * base + a[0], a[1..], b, base);
      assert (a + b)[1..] == a[1..] + b;
    }
  }

  lemma FoldLast(x: nat, a: seq<byte>, d: byte, base: nat)
    ensures Fold(x, a + [d], base) == Fold(x, a, base) * base + d
  {
    FoldAppend(x, a, [d], base);
    assert [d][1..] == [];
  }

  lemma {:induction false} NumberOfDigits(x: nat, base: nat)
    requires 2 <= base <= 256
    ensures Number(Digits(x, base), base) == x
    decreases x
  {
    if x > 0 {
      DivSmaller(x, base);
      var q: nat, r: byte := x / base, x % base;
      NumberOfDigits(q, base);
      FoldLast(0, Digits(q, base), r, base);
    }
  }

  // Digits without leading zeros are those of their number.
  lemma {:induction false} DigitsOfNumber(d: seq<byte>, base: nat)
    requires 2 <= base <= 256 && Below(d, base) && (d != [] ==> d[0] != 0)
    ensures Digits(Number(d, base), base) == d && (d != [] ==> Number(d, base) > 0)
    decreases |d|
  {
    if d != [] {
      var rest, last := d[..|d| - 1], d[|d| - 1];
      assert d == rest + [last];
      assert rest != [] ==> rest[0] == d[0];
      DigitsOfNumber(rest, base);
      FoldLast(0, rest, last, base);
      DivModUnique(Number(d, base), Number(rest, base), last, base);
      if rest != [] { MulMono(1, Number(rest, base), base); }
    }
  }

  // Leading zeros do not count.
  lemma {:induction false} NumberOfZeros(z: seq<byte>, d: seq<byte>, base: nat)
    requires forall k | 0 <= k < |z| :: z[k] == 0
    ensures Number(z + d, base) == Number(d, base)
    decreases |z|
  {
    if z == [] {
      assert z + d == d;
    } else {
      assert (z + d)[1..] == z[1..] + d;
      NumberOfZeros(z[1..], d, base);
    }
  }

  /******* Sizes *******/

  lemma {:induction false} FoldLower(x: nat, d: seq<byte>, base: nat)
    ensures Fold(x, d, base) >= x * Pow(base, |d|)
    decreases |d|
  {
    if d != [] {
      FoldLower(x * base + d[0], d[1..], base);
      var p := Pow(base, |d| - 1);
      Distribute(x * base, d[0], p);
      MulAssoc(x, base, p);
      MulMono(0, d[0], p);
    }
  }

  lemma {:induction false} FoldUpper(x: nat, d: seq<byte>, base: nat)
    requires Below(d, base)
    ensures Fold(x, d, base) < (x + 1) * Pow(base, |d|)
    decreases |d|
  {
    if d != [] {
      FoldUpper(x * base + d[0], d[1..], base);
      var p := Pow(base, |d| - 1);
      Distribute(x, 1, base);
      MulMono(x * base + d[0] + 1, (x + 1) * base, p);
      MulAssoc(x + 1, base, p);
    }
  }

  // 256^8 <= 58^11, so 138 digits are room for 100 bytes.
  lemma EncodeFits(n: nat)
    ensures Pow(256, n) <= Pow(58, n * 138 / 100 + 1)
  {
    EightBytes();
    PowCompare(256, 58, 8, 11, n, n * 138 / 100 + 1);
  }

  // 58^22 <= 2^129, so 733 bytes are room for 1000 digits.
  lemma DecodeFits(n: nat)
    ensures Pow(58, n) <= Pow(256, n * 733 / 1000 + 1)
  {
    Digits22();
    var size := n * 733 / 1000 + 1;
    PowCompare(58, 2, 22, 129, n, 8 * size);
    PowPow(2, 8, size);
    TwoTo8();
  }

  lemma TwoTo8()
    ensures Pow(2, 8) == 256
  {
    assert Pow(2, 4) == 16;
    PowAdd(2, 4, 4);
  }

  lemma EightBytes()
    ensures Pow(256, 8) <= Pow(58, 11)
  {
    assert Pow(256, 2) == 0x1_0000;
    PowAdd(256, 2, 2);
    PowAdd(256, 4, 4);
    FiftyEight();
  }

  lemma FiftyEight()
    ensures Pow(58, 11) == 24986644000165537792
  {
    assert Pow(58, 2) == 3364;
    PowAdd(58, 2, 2);
    PowAdd(58, 4, 4);
    PowAdd(58, 2, 1);
    PowAdd(58, 8, 3);
  }

  lemma TwoTo64()
    ensures Pow(2, 64) == 0x1_0000_0000_0000_0000
  {
    TwoTo8();
    PowAdd(2, 8, 8);
    PowAdd(2, 16, 16);
    PowAdd(2, 32, 32);
  }

  lemma Digits22()
    ensures Pow(58, 22) <= Pow(2, 129)
  {
    FiftyEight();
    PowAdd(58, 11, 11);
    TwoTo64();
    PowAdd(2, 64, 64);
    PowAdd(2, 1, 128);
  }

  /******* The buffer of digits *******/

  // One digit d of x, times m plus the carry, in place.
  lemma DigitStep(x: nat, d: nat, m: nat, c: nat, base: nat, low: seq<byte>)
    requires 2 <= base <= 256
    ensures var t := c + m * d;
            0 <= t % base < base && t / base >= 0 &&
            Fold((x * base + d) * m + c, low, base) == Fold(x * m + t / base, [t % base] + low, base)
  {
    var t := c + m * d;
    MulMono(0, m, d);
    DivModOf(t, base);
    var q, r := t / base, t % base;
    if q < 0 { MulMono(q, -1, base); }
    assert (x * m + q) * base + r == (x * base + d) * m + c by {
      Distribute(x * m, q, base);
      Distribute(x * base, d, m);
      MulAssoc(x, m, base);
      MulAssoc(x, base, m);
    }
    assert ([r] + low)[1..] == low;
  }

  // What the buffer's low digits become, and the carry, make up the product.
  ghost predicate Multiplying(s: seq<byte>, b: seq<byte>, i: nat, m: nat, base: nat, carry: nat, c0: nat) {
    && i <= |s| == |b| && Below(b, base) && b[..|s| - i] == s[..|s| - i]
    && Fold(Number(s[..|s| - i], base) * m + carry, b[|s| - i..], base) == Number(s, base) * m + c0
  }

  lemma MultiplyStep(s: seq<byte>, b: seq<byte>, i: nat, m: nat, base: nat, carry: nat, c0: nat)
    requires 2 <= base <= 256 && i < |s| && Multiplying(s, b, i, m, base, carry, c0)
    ensures var k := |s| - 1 - i; var t := carry + m * b[k];
            0 <= t % base < base && 0 <= t / base &&
            Multiplying(s, b[k := t % base], i + 1, m, base, t / base, c0)
  {
    var k := |s| - 1 - i;
    var d: nat := b[k];
    assert s[..k + 1] == s[..k] + [s[k]];
    assert b[..k + 1][k] == s[..k + 1][k];
    FoldLast(0, s[..k], s[k], base);
    DigitStep(Number(s[..k], base), d, m, carry, base, b[k + 1..]);
    var t := carry + m * d;
    var b' := b[k := t % base];
    assert b'[k..] == [t % base] + b[k + 1..];
    assert b'[..k] == b[..k + 1][..k] == s[..k + 1][..k] == s[..k];
  }

  // The loop ends with the carry used up and nothing but zeros above.
  lemma MultiplyEnd(s: seq<byte>, b: seq<byte>, i: nat, length: nat, m: nat, base: nat, carry: nat, c0: nat)
    requires base >= 2 && Multiplying(s, b, i, m, base, carry, c0) && length <= |s|
    requires forall k | 0 <= k < |s| - length :: s[k] == 0
    requires (carry == 0 && i >= length) || i == |s|
    requires Number(s, base) * m + c0 < Pow(base, |s|)
    ensures carry == 0 && Number(b, base) == Number(s, base) * m + c0 && forall k | 0 <= k < |s| - i :: b[k] == 0
  {
    var z, low := s[..|s| - i], b[|s| - i..];
    if i == |s| {
      assert z == [] && low == b;
      FoldLower(carry, b, base);
      PowMono(base, 0, |s|);
      if carry > 0 { MulMono(1, carry, Pow(base, |s|)); }
    }
    assert b == z + low;
    forall k | 0 <= k < |z| ensures z[k] == 0 { assert z[k] == s[k]; }
    NumberOfZeros(z, [], base);
    assert z + [] == z;
    NumberOfZeros(z, low, base);
    forall k | 0 <= k < |s| - i ensures b[k] == 0 { assert b[..|s| - i][k] == z[k]; }
  }

  // "b = b * m + c" on a buffer of digits, the least significant last, of which the
  // last `length` may be in use.  The assert on the carry holds whenever the result
  // has room.
  method MultiplyAdd(b: array<byte>, length: nat, m: nat, base: nat, c: nat) returns (i: nat)
    requires 2 <= base <= 256 && length <= b.Length && Below(b[..], base)
    requires forall k | 0 <= k < b.Length - length :: b[k] == 0
    requires Number(b[..], base) * m + c < Pow(base, b.Length)
    modifies b
    ensures i <= b.Length && Below(b[..], base) && forall k | 0 <= k < b.Length - i :: b[k] == 0
    ensures Number(b[..], base) == old(Number(b[..], base)) * m + c
  {
    ghost var s := b[..];
    var carry := c;
    i := 0;
    MultiplyStart(s, m, base, c);
    while (carry != 0 || i < length) && i < b.Length
      invariant 0 <= carry && i <= b.Length && Multiplying(s, b[..], i, m, base, carry, c)
      decreases b.Length - i
    {
      ghost var before := b[..];
      MultiplyStep(s, before, i, m, base, carry, c);
      carry := carry + m * b[b.Length - 1 - i];
      var digit: byte := carry % base;
      b[b.Length - 1 - i] := digit;
      assert b[..] == before[|s| - 1 - i := digit];
      carry := carry / base;
      i := i + 1;
    }
    MultiplyEnd(s, b[..], i, length, m, base, carry, c);
    assert carry == 0;
  }

  lemma MultiplyStart(s: seq<byte>, m: nat, base: nat, c: nat)
    requires Below(s, base)
    ensures Multiplying(s, s, 0, m, base, c, c)
  {
    assert s[..|s|] == s && s[|s|..] == [];
  }

  // The digits in use, without leading zeros.
  method SkipZeros(b: array<byte>, start: nat, base: nat) returns (it: nat)
    requires start <= b.Length && 2 <= base <= 256 && Below(b[..], base) && forall k | 0 <= k < start :: b[k] == 0
    ensures it <= b.Length && b[it..] == Digits(Number(b[..], base), base)
  {
    it := start;
    while it != b.Length && b[it] == 0
      invariant it <= b.Length && forall k | 0 <= k < it :: b[k] == 0
      decreases b.Length - it
    {
      it := it + 1;
    }
    assert b[..] == b[..it] + b[it..];
    NumberOfZeros(b[..it], b[it..], base);
    DigitsOfNumber(b[it..], base);
  }

  /******* The alphabet *******/

  // pszBase58: the letters and digits but 0, I, O and l.
  const ALPHABET := "123456789" + "ABCDEFGH" + "JKLMN" + "PQRSTUVWXYZ" + "abcdefghijk" + "mnopqrstuvwxyz"

  // A character's place in the alphabet, or -1, and the character at a place.
  function Place(c: char): int {
    var n := c as int;
    if '1' <= c <= '9' then n - 49
    else if 'A' <= c <= 'H' then n - 56
    else if 'J' <= c <= 'N' then n - 57
    else if 'P' <= c <= 'Z' then n - 58
    else if 'a' <= c <= 'k' then n - 64
    else if 'm' <= c <= 'z' then n - 65
    else -1
  }

  function CharOf(d: byte): (c: char)
    requires d < 58
    ensures Place(c) == d && !IsSpace(c) && (c == '1' <==> d == 0)
  {
    if d < 9 then (d + 49) as char
    else if d < 17 then (d + 56) as char
    else if d < 22 then (d + 57) as char
    else if d < 33 then (d + 58) as char
    else if d < 44 then (d + 64) as char
    else (d + 65) as char
  }

  predicate IsSpace(c: char) {
    c == ' ' || '\t' <= c <= '\r'
  }

  lemma PlaceInverts(c: char)
    requires Place(c) >= 0
    ensures Place(c) < 58 && CharOf(Place(c)) == c
  {
  }

  // The table of the source is this correspondence, so searching it for a character
  // finds the place.
  lemma AlphabetIs(d: byte)
    requires d < 58
    ensures |ALPHABET| == 58 && ALPHABET[d] == CharOf(d)
  {
    if d < 9 {
      assert ALPHABET[d] == "123456789"[d];
    } else if d < 17 {
      assert ALPHABET[d] == "ABCDEFGH"[d - 9];
    } else if d < 22 {
      assert ALPHABET[d] == "JKLMN"[d - 17];
    } else if d < 33 {
      assert ALPHABET[d] == "PQRSTUVWXYZ"[d - 22];
    } else if d < 44 {
      assert ALPHABET[d] == "abcdefghijk"[d - 33];
    } else {
      assert ALPHABET[d] == "mnopqrstuvwxyz"[d - 44];
    }
  }

  /******* What an encoding is *******/

  function Leading<T(==)>(s: seq<T>, x: T): (n: nat)
    ensures n <= |s| && (forall k | 0 <= k < n :: s[k] == x) && (n < |s| ==> s[n] != x)
  {
    if s == [] || s[0] != x then 0 else 1 + Leading(s[1..], x)
  }

  function Repeat<T>(x: T, n: nat): (r: seq<T>)
    ensures |r| == n && forall k | 0 <= k < n :: r[k] == x
  {
    seq(n, _ => x)
  }

  function Chars(d: seq<byte>): (r: string)
    requires Below(d, 58)
    ensures |r| == |d| && forall k | 0 <= k < |d| :: r[k] == CharOf(d[k])
  {
    seq(|d|, k requires 0 <= k < |d| => CharOf(d[k]))
  }

  ghost predicate InAlphabet(s: string) {
    forall k | 0 <= k < |s| :: Place(s[k]) >= 0
  }

  ghost function Values(s: string): (r: seq<byte>)
    requires InAlphabet(s)
    ensures |r| == |s| && Below(r, 58) && forall k | 0 <= k < |s| :: r[k] == Place(s[k])
  {
    seq(|s|, k requires 0 <= k < |s| => Place(s[k]))
  }

  // A '1' for each leading zero byte, then the number in base 58.
  function Encoded(vch: seq<byte>): string {
    Repeat('1', Leading(vch, 0)) + Chars(Digits(Number(vch, 256), 58))
  }

  // A zero byte for each leading '1', then the number in base 256.
  ghost function DecodedWord(w: string): seq<byte>
    requires InAlphabet(w)
  {
    ZerosAndNumber(Leading(w, '1'), w)
  }

  ghost function ZerosAndNumber(zeroes: nat, w: string): seq<byte>
    requires InAlphabet(w)
  {
    Repeat(0, zeroes) + Digits(Number(Values(w), 58), 256)
  }

  function TrimLeft(s: string): string {
    if s != [] && IsSpace(s[0]) then TrimLeft(s[1..]) else s
  }

  function TrimRight(s: string): string {
    if s != [] && IsSpace(s[|s| - 1]) then TrimRight(s[..|s| - 1]) else s
  }

  function Trim(s: string): string { TrimRight(TrimLeft(s)) }

  // White space around a word of the alphabet is ignored; anything else is refused.
  ghost function Decoded(s: string): Option<seq<byte>> {
    if InAlphabet(Trim(s)) then Some(DecodedWord(Trim(s))) else None
  }

  /******* EncodeBase58 *******/

  // The loop over the bytes after the leading zeros.
  method EncodeNumber(bytes: seq<byte>) returns (b58: array<byte>, length: nat)
    ensures fresh(b58) && length <= b58.Length && Below(b58[..], 58) && Number(b58[..], 58) == Number(bytes, 256)
    ensures forall k | 0 <= k < b58.Length - length :: b58[k] == 0
  {
    var size := |bytes| * 138 / 100 + 1;
    b58 := new byte[size](_ => 0);
    length := 0;
    EncodeFits(|bytes|);
    NumberOfZeros(b58[..], [], 58);
    assert b58[..] + [] == b58[..];
    for n := 0 to |bytes|
      invariant fresh(b58) && length <= b58.Length && Below(b58[..], 58) && Number(b58[..], 58) == Number(bytes[..n], 256)
      invariant forall k | 0 <= k < b58.Length - length :: b58[k] == 0
    {
      NumberGrows(bytes, n, 256);
      length := MultiplyAdd(b58, length, 256, 58, bytes[n]);
    }
    assert bytes[..|bytes|] == bytes;
  }

  // One more digit, and still below the power for all of them.
  lemma NumberGrows(d: seq<byte>, n: nat, base: nat)
    requires n < |d| && Below(d, base) && base > 0
    ensures Number(d[..n + 1], base) == Number(d[..n], base) * base + d[n] < Pow(base, |d|)
  {
    assert d[..n + 1] == d[..n] + [d[n]];
    FoldLast(0, d[..n], d[n], base);
    FoldUpper(0, d[..n + 1], base);
    PowMono(base, n + 1, |d|);
  }

  method EncodeBase58(vch: seq<byte>) returns (str: string)
    ensures str == Encoded(vch)
  {
    var zeroes := 0;
    while zeroes != |vch| && vch[zeroes] == 0
      invariant zeroes <= |vch| && forall k | 0 <= k < zeroes :: vch[k] == 0
    {
      zeroes := zeroes + 1;
    }
    LeadingIs(vch, 0, zeroes);
    assert vch == vch[..zeroes] + vch[zeroes..];
    NumberOfZeros(vch[..zeroes], vch[zeroes..], 256);
    var b58, length := EncodeNumber(vch[zeroes..]);
    var it := SkipZeros(b58, b58.Length - length, 58);
    str := Repeat('1', zeroes);
    ghost var digits := b58[it..];
    ghost var start := it;
    while it != b58.Length
      invariant start <= it <= b58.Length && b58[start..] == digits && Below(digits, 58)
      invariant str == Repeat('1', zeroes) + Chars(digits)[..it - start]
      decreases b58.Length - it
    {
      assert b58[it] == digits[it - start];
      str := str + [CharOf(b58[it])];
      it := it + 1;
    }
  }

  lemma LeadingIs<T>(s: seq<T>, x: T, n: nat)
    requires n <= |s| && (forall k | 0 <= k < n :: s[k] == x) && (n < |s| ==> s[n] != x)
    ensures Leading(s, x) == n
  {
    var m := Leading(s, x);
    assert !(m < n) && !(n < m);
  }

  /******* DecodeBase58 *******/

  lemma {:induction false} TrimRightIs(w: string, spaces: string)
    requires (forall k | 0 <= k < |spaces| :: IsSpace(spaces[k])) && (w != [] ==> !IsSpace(w[|w| - 1]))
    ensures TrimRight(w + spaces) == w
    decreases |spaces|
  {
    var s := w + spaces;
    if spaces == [] {
      assert s == w;
    } else {
      var rest := spaces[..|spaces| - 1];
      assert s[|s| - 1] == spaces[|spaces| - 1];
      assert s[..|s| - 1] == w + rest;
      TrimRightIs(w, rest);
    }
  }

  // Trimming on the right keeps everything up to a character that is no space.
  lemma {:induction false} TrimRightKeeps(s: string, j: nat)
    requires j < |s| && !IsSpace(s[j])
    ensures j < |TrimRight(s)| <= |s| && TrimRight(s) == s[..|TrimRight(s)|]
    decreases |s|
  {
    if IsSpace(s[|s| - 1]) {
      TrimRightKeeps(s[..|s| - 1], j);
    } else {
      assert s == s[..|s|];
    }
  }

  // A character outside the alphabet, at or before one that is no space, is in the
  // trimmed text.
  lemma NotInAlphabet(s: string, i: nat, j: nat)
    requires i <= j < |s| && !IsSpace(s[j]) && Place(s[i]) < 0
    ensures !InAlphabet(TrimRight(s)) && DecodedTrimmed(s) == None
  {
    TrimRightKeeps(s, j);
    assert TrimRight(s)[i] == s[i];
  }

  // The outcome of the loop over the characters.
  datatype Scan = Bad | Good(length: nat, end: nat)

  // Reads characters up to a space or the end.
  method DecodeNumber(w: string, b256: array<byte>) returns (r: Scan)
    requires Cleared(b256[..]) && Pow(58, |w|) <= Pow(256, b256.Length)
    modifies b256
    ensures r.Bad? ==> exists i :: 0 <= i < |w| && Place(w[i]) < 0 && !IsSpace(w[i])
    ensures r.Good? ==> r.end <= |w| && (r.end < |w| ==> IsSpace(w[r.end])) && InAlphabet(w[..r.end])
    ensures r.Good? ==> r.length <= b256.Length && forall k | 0 <= k < b256.Length - r.length :: b256[k] == 0
    ensures r.Good? ==> Number(b256[..], 256) == Number(Values(w[..r.end]), 58)
  {
    var n: nat, length: nat := 0, 0;
    NumberOfZeros(b256[..], [], 256);
    assert b256[..] + [] == b256[..];
    while n < |w| && !IsSpace(w[n])
      invariant n <= |w| && InAlphabet(w[..n]) && length <= b256.Length
      invariant forall k | 0 <= k < b256.Length - length :: b256[k] == 0
      invariant Number(b256[..], 256) == Number(Values(w[..n]), 58)
    {
      var ch := Place(w[n]);
      if ch < 0 {
        return Bad;
      }
      WordGrows(w, n);
      length := MultiplyAdd(b256, length, 58, 256, ch);
      n := n + 1;
    }
    return Good(length, n);
  }

  ghost predicate Cleared(s: seq<byte>) {
    forall k | 0 <= k < |s| :: s[k] == 0
  }

  lemma WordGrows(w: string, n: nat)
    requires n < |w| && InAlphabet(w[..n]) && Place(w[n]) >= 0
    ensures InAlphabet(w[..n + 1])
    ensures Number(Values(w[..n + 1]), 58) == Number(Values(w[..n]), 58) * 58 + Place(w[n]) < Pow(58, |w|)
  {
    var d := ValuesGrow(w, n);
    NumberGrows(d, n, 58);
    assert d[..n + 1] == d && d[..n] == Values(w[..n]);
    PowMono(58, n + 1, |w|);
  }

  lemma ValuesGrow(w: string, n: nat) returns (d: seq<byte>)
    requires n < |w| && InAlphabet(w[..n]) && Place(w[n]) >= 0
    ensures InAlphabet(w[..n + 1]) && d == Values(w[..n + 1]) == Values(w[..n]) + [Place(w[n])]
  {
    assert w[..n + 1] == w[..n] + [w[n]];
    d := Values(w[..n + 1]);
  }

  // The text a C string holds: what precedes the first null character.
  function CString(s: string): string {
    if s == [] || s[0] == '\0' then [] else [s[0]] + CString(s[1..])
  }

  // After the spaces and the leading '1's: the digits, more spaces and the end.
  method DecodeRest(r: string, zeroes: nat) returns (vch: Option<seq<byte>>)
    requires zeroes <= |r| && Leading(r, '1') == zeroes
    ensures vch == DecodedTrimmed(r)
  {
    var w := r[zeroes..];
    var size := |w| * 733 / 1000 + 1;
    var b256 := new byte[size](_ => 0);
    DecodeFits(|w|);
    var scan := DecodeNumber(w, b256);
    if scan.Bad? {
      ghost var i :| 0 <= i < |w| && Place(w[i]) < 0 && !IsSpace(w[i]);
      NotInAlphabet(r, zeroes + i, zeroes + i);
      return None;
    }
    var end := SkipSpaces(w, scan.end);
    if end != |w| {
      NotInAlphabet(r, zeroes + scan.end, zeroes + end);
      return None;
    }
    var it := SkipZeros(b256, size - scan.length, 256);
    WordAt(r, zeroes, w, scan.end);
    vch := Some(Repeat(0, zeroes) + b256[it..]);
  }

  ghost function DecodedTrimmed(r: string): Option<seq<byte>> {
    if InAlphabet(TrimRight(r)) then Some(DecodedWord(TrimRight(r))) else None
  }

  method SkipSpaces(s: string, start: nat) returns (end: nat)
    requires start <= |s|
    ensures start <= end <= |s| && (forall k | start <= k < end :: IsSpace(s[k])) && (end < |s| ==> !IsSpace(s[end]))
  {
    end := start;
    while end < |s| && IsSpace(s[end])
      invariant start <= end <= |s| && forall k | start <= k < end :: IsSpace(s[k])
    {
      end := end + 1;
    }
  }

  // The ones and the digits that follow are the trimmed text, and the ones do not
  // change its number.
  lemma WordOf(r: string, ones: string, w: string, spaces: string)
    requires r == ones + (w + spaces) && Leading(r, '1') == |ones| && InAlphabet(w)
    requires forall k | 0 <= k < |spaces| :: IsSpace(spaces[k])
    requires forall k | 0 <= k < |ones| :: ones[k] == '1'
    ensures DecodedTrimmed(r) == Some(ZerosAndNumber(|ones|, w))
  {
    OnesInAlphabet(ones, w);
    TrimWord(r, ones, w, spaces);
    TrimmedIs(r, ones, w);
  }

  lemma TrimmedIs(r: string, ones: string, w: string)
    requires InAlphabet(w) && InAlphabet(ones + w) && Number(Values(ones + w), 58) == Number(Values(w), 58)
    requires TrimRight(r) == ones + w && Leading(ones + w, '1') == |ones|
    ensures DecodedTrimmed(r) == Some(ZerosAndNumber(|ones|, w))
  {
    var word := TrimRight(r);
    assert DecodedWord(word) == ZerosAndNumber(|ones|, word);
  }

  lemma WordAt(r: string, zeroes: nat, w: string, end: nat)
    requires zeroes <= |r| && w == r[zeroes..] && end <= |w| && Leading(r, '1') == zeroes
    requires InAlphabet(w[..end]) && forall k | end <= k < |w| :: IsSpace(w[k])
    ensures DecodedTrimmed(r) == Some(ZerosAndNumber(zeroes, w[..end]))
  {
    ThreeParts(r, zeroes, end);
    WordOf(r, r[..zeroes], w[..end], w[end..]);
  }

  lemma ThreeParts(r: string, i: nat, j: nat)
    requires i + j <= |r|
    ensures r == r[..i] + (r[i..][..j] + r[i..][j..])
  {
  }

  lemma TrimWord(r: string, ones: string, w: string, spaces: string)
    requires r == ones + (w + spaces) && forall k | 0 <= k < |spaces| :: IsSpace(spaces[k])
    requires Leading(r, '1') == |ones| && (ones + w != [] ==> !IsSpace((ones + w)[|ones + w| - 1]))
    ensures TrimRight(r) == ones + w && Leading(ones + w, '1') == |ones|
  {
    assert r == (ones + w) + spaces;
    TrimRightIs(ones + w, spaces);
    LeadingOfWord(ones + w, spaces, |ones|);
  }

  lemma OnesInAlphabet(ones: string, w: string)
    requires InAlphabet(w) && forall k | 0 <= k < |ones| :: ones[k] == '1'
    ensures InAlphabet(ones + w) && (ones + w != [] ==> !IsSpace((ones + w)[|ones + w| - 1]))
    ensures Number(Values(ones + w), 58) == Number(Values(w), 58)
  {
    var word := ones + w;
    forall k | 0 <= k < |word|
      ensures Place(word[k]) == (if k < |ones| then 0 else Place(w[k - |ones|])) && Place(word[k]) >= 0 && !IsSpace(word[k])
    {
    }
    assert Values(word) == Repeat(0, |ones|) + Values(w);
    NumberOfZeros(Repeat(0, |ones|), Values(w), 58);
  }

  lemma LeadingOfWord(word: string, spaces: string, zeroes: nat)
    requires zeroes <= |word| && Leading(word + spaces, '1') == zeroes
    ensures Leading(word, '1') == zeroes
  {
    var r := word + spaces;
    assert forall k | 0 <= k < |word| :: word[k] == r[k];
    LeadingIs(word, '1', zeroes);
  }

  lemma {:induction false} TrimLeftIs(s: string, n: nat)
    requires n <= |s| && (forall k | 0 <= k < n :: IsSpace(s[k])) && (n < |s| ==> !IsSpace(s[n]))
    ensures TrimLeft(s) == s[n..]
    decreases n
  {
    if n > 0 {
      TrimLeftIs(s[1..], n - 1);
      assert s[1..][n - 1..] == s[n..];
    }
  }

  method DecodeBase58(str: string) returns (vch: Option<seq<byte>>)
    ensures vch == Decoded(CString(str))
  {
    var psz := CString(str);
    var start := SkipSpaces(psz, 0);
    TrimLeftIs(psz, start);
    var r := psz[start..];
    var zeroes := 0;
    while zeroes < |r| && r[zeroes] == '1'
      invariant zeroes <= |r| && forall k | 0 <= k < zeroes :: r[k] == '1'
    {
      zeroes := zeroes + 1;
    }
    LeadingIs(r, '1', zeroes);
    vch := DecodeRest(r, zeroes);
  }

  /******* Each undoes the other *******/

  // Leading zeros and the digits of a number, taken apart again.
  lemma Parts(k: nat, d: seq<byte>, base: nat)
    requires 2 <= base <= 256 && Below(d, base) && (d != [] ==> d[0] != 0)
    ensures var v := Repeat(0, k) + d; Leading(v, 0) == k && Number(v, base) == Number(d, base)
  {
    LeadingIs(Repeat(0, k) + d, 0, k);
    NumberOfZeros(Repeat(0, k), d, base);
  }

  // A sequence is its leading zeros and the digits of its number.
  lemma Assembled(v: seq<byte>, base: nat)
    requires 2 <= base <= 256 && Below(v, base)
    ensures v == Repeat(0, Leading(v, 0)) + Digits(Number(v, base), base)
  {
    var k := Leading(v, 0);
    assert v == Repeat(0, k) + v[k..];
    NumberOfZeros(Repeat(0, k), v[k..], base);
    SignificantDigits(v[k..], Number(v, base), base);
  }

  lemma SignificantDigits(d: seq<byte>, x: nat, base: nat)
    requires 2 <= base <= 256 && Below(d, base) && (d != [] ==> d[0] != 0) && x == Number(d, base)
    ensures Digits(x, base) == d
  {
    DigitsOfNumber(d, base);
  }

  // The characters for digits, and a '1' for each leading zero among them.
  lemma Spelled(k: nat, d: seq<byte>)
    requires Below(d, 58) && (d != [] ==> d[0] != 0)
    ensures var w := Repeat('1', k) + Chars(d);
            InAlphabet(w) && Leading(w, '1') == k && Values(w) == Repeat(0, k) + d && forall j | 0 <= j < |w| :: !IsSpace(w[j])
  {
    var w := Repeat('1', k) + Chars(d);
    assert Place('1') == 0;
    forall j | 0 <= j < |w| ensures Place(w[j]) == (Repeat(0, k) + d)[j] && !IsSpace(w[j]) {
      if j >= k { assert w[j] == CharOf(d[j - k]); }
    }
    LeadingIs(w, '1', k);
  }

  lemma TrimNothing(w: string)
    requires forall j | 0 <= j < |w| :: !IsSpace(w[j])
    ensures Trim(w) == w
  {
  }

  // Decoding an encoding gives the bytes back.
  lemma DecodeEncode(vch: seq<byte>)
    ensures Decoded(Encoded(vch)) == Some(vch)
  {
    var k, x := Leading(vch, 0), Number(vch, 256);
    var d := Digits(x, 58);
    Spelled(k, d);
    TrimNothing(Encoded(vch));
    Parts(k, d, 58);
    NumberOfDigits(x, 58);
    Assembled(vch, 256);
  }

  // Encoding what text decodes to gives the text back, without the white space.
  lemma EncodeDecode(s: string)
    requires Decoded(s).Some?
    ensures Encoded(Decoded(s).value) == Trim(s)
  {
    var w := Trim(s);
    var k, x := Leading(w, '1'), Number(Values(w), 58);
    var d := Digits(x, 256);
    Parts(k, d, 256);
    NumberOfDigits(x, 256);
    OnesAreZeros(w);
    Assembled(Values(w), 58);
    CharsOfValues(w);
    assert Values(w) == Repeat(0, k) + Digits(x, 58);
    Unspell(w, k, Digits(x, 58));
  }

  lemma OnesAreZeros(w: string)
    requires InAlphabet(w)
    ensures Leading(Values(w), 0) == Leading(w, '1')
  {
    var k := Leading(w, '1');
    if k < |w| { PlaceInverts(w[k]); }
    LeadingIs(Values(w), 0, k);
  }

  lemma CharsOfValues(w: string)
    requires InAlphabet(w)
    ensures Chars(Values(w)) == w
  {
    forall j | 0 <= j < |w| ensures CharOf(Values(w)[j]) == w[j] {
      PlaceInverts(w[j]);
    }
  }

  lemma Unspell(w: string, k: nat, d: seq<byte>)
    requires InAlphabet(w) && Below(d, 58) && Values(w) == Repeat(0, k) + d && Chars(Values(w)) == w
    ensures w == Repeat('1', k) + Chars(d)
  {
    forall j | 0 <= j < |w| ensures w[j] == (Repeat('1', k) + Chars(d))[j] {
      assert w[j] == CharOf(Values(w)[j]);
      if j >= k { assert Values(w)[j] == d[j - k]; }
    }
  }

  /******* Checked encodings *******/

  // The first four bytes of the hash.
  type Check = f: seq<byte> -> seq<byte> | forall s :: |f(s)| == 4 witness (_ => [0, 0, 0, 0])

  method EncodeBase58Check(vchIn: seq<byte>, hash: Check) returns (str: string)
    ensures str == Encoded(vchIn + hash(vchIn))
  {
    str := EncodeBase58(vchIn + hash(vchIn));
  }

  // Succeeds exactly on text that decodes to data followed by its check.
  method DecodeBase58Check(str: string, hash: Check) returns (r: Option<seq<byte>>)
    ensures r.Some? ==> Decoded(CString(str)) == Some(r.value + hash(r.value))
    ensures r.None? ==> forall v :: Decoded(CString(str)) != Some(v + hash(v))
  {
    var vch := DecodeBase58(str);
    if vch.None? || |vch.value| < 4 {
      return None;
    }
    var v := vch.value;
    var data := v[..|v| - 4];
    if hash(data) != v[|v| - 4..] {
      forall u ensures v != u + hash(u) {
        CheckApart(u, hash(u));
      }
      return None;
    }
    assert v == data + hash(data);
    return Some(data);
  }

  lemma {:induction false} CStringPlain(s: string)
    requires forall k | 0 <= k < |s| :: s[k] != '\0'
    ensures CString(s) == s
  {
    if s != [] { CStringPlain(s[1..]); }
  }

  // A checked encoding decodes to the data it was made from.
  method CheckedRoundTrip(v: seq<byte>, hash: Check) returns (r: Option<seq<byte>>)
    ensures r == Some(v)
  {
    var str := EncodeBase58Check(v, hash);
    DecodeEncode(v + hash(v));
    EncodedPlain(v + hash(v));
    r := DecodeBase58Check(str, hash);
    if r.Some? { SplitCheck(v, r.value, hash); }
  }

  lemma CheckApart(u: seq<byte>, check: seq<byte>)
    ensures (u + check)[..|u|] == u && (u + check)[|u|..] == check
  {
  }

  lemma SplitCheck(u: seq<byte>, v: seq<byte>, hash: Check)
    requires u + hash(u) == v + hash(v)
    ensures u == v
  {
    assert u == (u + hash(u))[..|u|] && v == (v + hash(v))[..|v|];
  }

  lemma EncodedPlain(v: seq<byte>)
    ensures CString(Encoded(v)) == Encoded(v)
  {
    var w := Encoded(v);
    Spelled(Leading(v, 0), Digits(Number(v, 256), 58));
    forall k | 0 <= k < |w| ensures w[k] != '\0' { assert Place(w[k]) >= 0; }
    CStringPlain(w);
  }
}
