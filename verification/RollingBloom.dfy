// The rolling Bloom filter of src/bloom.cpp: every position has two bits, kept in two
// planes of 64-bit words, that number the generation which wrote it last.

module RollingBloom {
  import opened Arithmetic

  type uint64 = x: int | 0 <= x < 0x1_0000_0000_0000_0000

  // A position: a pair of words and a bit of each.
  datatype Pos = Pos(pair: nat, bit: nat)

  function One(b: bool): nat { if b then 1 else 0 }

  // The generation number at a position, 0 if it is unset.
  function Gen(data: seq<uint64>, p: Pos): nat
    requires 2 * p.pair + 1 < |data|
  {
    One(Bit(data[2 * p.pair], p.bit)) + 2 * One(Bit(data[2 * p.pair + 1], p.bit))
  }

  /******* Bits of words *******/

  lemma WordSize()
    ensures Pow2(64) == 0x1_0000_0000_0000_0000
  {
    Pow2Values();
    Pow2Add(32, 32);
  }

  lemma OnesBit(k: nat)
    requires k < 64
    ensures Bit(0xffff_ffff_ffff_ffff, k) && !Bit(0, k)
  {
    WordSize();
    BitZero(k);
    BitNot(0, 64, k);
  }

  lemma BitFits(bit: nat)
    requires bit < 64
    ensures Pow2(bit) <= 0xffff_ffff_ffff_ffff && Pow2(64) == 0x1_0000_0000_0000_0000
  {
    WordSize();
    Pow2Monotone(bit, 63);
    assert Pow2(64) == 2 * Pow2(63);
  }

  // -uint64_t(b) for a single bit: all ones or none.
  function Spread(b: nat): uint64 { if b == 0 then 0 else 0xffff_ffff_ffff_ffff }

  // Wiping a pair of words: x & ((p1 ^ m1) | (p2 ^ m2)).
  function Wiped(x: uint64, p1: uint64, p2: uint64, g: nat): (r: uint64) {
    AndBound(x, Or(Xor(p1, Spread(g % 2)), Xor(p2, Spread(g / 2))));
    And(x, Or(Xor(p1, Spread(g % 2)), Xor(p2, Spread(g / 2))))
  }

  // Only the positions of generation g lose their bits.
  lemma WipedBit(x: uint64, p1: uint64, p2: uint64, g: nat, k: nat)
    requires 1 <= g <= 3 && k < 64
    ensures Bit(Wiped(x, p1, p2, g), k) <==> Bit(x, k) && One(Bit(p1, k)) + 2 * One(Bit(p2, k)) != g
  {
    var m1, m2 := Spread(g % 2), Spread(g / 2);
    OnesBit(k);
    BitXor(p1, m1, k);
    BitXor(p2, m2, k);
    BitOr(Xor(p1, m1), Xor(p2, m2), k);
    BitAnd(x, Or(Xor(p1, m1), Xor(p2, m2)), k);
  }

  // (x & ~(1 << bit)) | b << bit
  function Put(x: uint64, bit: nat, b: nat): (r: uint64)
    requires bit < 64 && b <= 1
  {
    BitFits(bit);
    AndBound(x, 0xffff_ffff_ffff_ffff - Pow2(bit));
    OrBound(And(x, 0xffff_ffff_ffff_ffff - Pow2(bit)), b * Pow2(bit), 64);
    Or(And(x, 0xffff_ffff_ffff_ffff - Pow2(bit)), b * Pow2(bit))
  }

  lemma PutBit(x: uint64, bit: nat, b: nat, k: nat)
    requires bit < 64 && b <= 1 && k < 64
    ensures Bit(Put(x, bit, b), k) <==> if k == bit then b == 1 else Bit(x, k)
  {
    BitFits(bit);
    BitNot(Pow2(bit), 64, k);
    BitPow2(bit, k);
    BitZero(k);
    BitAnd(x, 0xffff_ffff_ffff_ffff - Pow2(bit), k);
    BitOr(And(x, 0xffff_ffff_ffff_ffff - Pow2(bit)), b * Pow2(bit), k);
  }

  /******* History *******/

  // The position of a hash: the words are picked by its high bits, and the lowest bit
  // of that pick is ignored.
  function PosOf(h: nat, words: nat): (p: Pos)
    requires words > 0 && words % 2 == 0
    ensures 2 * p.pair + 1 < words && p.bit < 64
  {
    Pos(h / 64 % words / 2, h % 64)
  }

  // One of the first n hashes of the key falls on p.
  ghost predicate Touches<K(!new)>(hash: (nat, K) -> nat, words: nat, key: K, n: nat, p: Pos)
    requires words > 0 && words % 2 == 0
  {
    exists k: nat :: k < n && PosOf(hash(k, key), words) == p
  }

  // The last of the first m insertions that touched p, or -1.
  ghost function Last<K(!new)>(hash: (nat, K) -> nat, words: nat, funcs: nat, history: seq<K>, m: nat, p: Pos): (r: int)
    requires words > 0 && words % 2 == 0 && m <= |history|
    ensures -1 <= r < m
    ensures r >= 0 ==> Touches(hash, words, history[r], funcs, p)
    ensures forall i | r < i < m :: !Touches(hash, words, history[i], funcs, p)
  {
    if m == 0 then -1
    else if Touches(hash, words, history[m - 1], funcs, p) then m - 1
    else Last(hash, words, funcs, history, m - 1, p)
  }

  // What a position shows in generation g (counted from 0, of n entries each) when
  // insertion `last` wrote it last.
  function Stamp(last: int, g: int, n: nat): nat
    requires n > 0
  {
    if last >= 0 && last / n >= g - 2 then 1 + last / n % 3 else 0
  }

  // Wiping the number that generation g + 1 takes over ages every stamp by one.
  lemma StampAges(last: int, g: nat, n: nat)
    requires n > 0 && last / n <= g
    ensures Stamp(last, g + 1, n) == if Stamp(last, g, n) == 1 + (g + 1) % 3 then 0 else Stamp(last, g, n)
  {
  }

  /******* The filter *******/

  // What the cells show after the first m insertions, in generation g.
  ghost predicate Shows<K(!new)>(data: seq<uint64>, hash: (nat, K) -> nat, funcs: nat, history: seq<K>, g: int, n: nat)
    requires |data| > 0 && |data| % 2 == 0 && n > 0
  {
    forall p: Pos | 2 * p.pair + 1 < |data| && p.bit < 64 ::
      Gen(data, p) == Stamp(Last(hash, |data|, funcs, history, |history|, p), g, n)
  }

  lemma ShowsNothing<K(!new)>(data: seq<uint64>, hash: (nat, K) -> nat, funcs: nat, n: nat)
    requires |data| > 0 && |data| % 2 == 0 && n > 0 && forall k | 0 <= k < |data| :: data[k] == 0
    ensures Shows(data, hash, funcs, [], 0, n)
  {
    forall p: Pos | 2 * p.pair + 1 < |data| && p.bit < 64 ensures Gen(data, p) == 0 {
      BitZero(p.bit);
    }
  }

  // The wipe of a new generation's number.
  ghost predicate WipedAll(data: seq<uint64>, data': seq<uint64>, g: nat) {
    |data'| == |data| && forall p: Pos | 2 * p.pair + 1 < |data| && p.bit < 64 ::
      Gen(data', p) == if Gen(data, p) == g then 0 else Gen(data, p)
  }

  ghost predicate PairWiped(s: seq<uint64>, s': seq<uint64>, w: nat, g: nat)
    requires 2 * w + 1 < |s| == |s'|
  {
    s'[2 * w] == Wiped(s[2 * w], s[2 * w], s[2 * w + 1], g) && s'[2 * w + 1] == Wiped(s[2 * w + 1], s[2 * w], s[2 * w + 1], g)
  }

  lemma PairsWiped(s: seq<uint64>, s': seq<uint64>, g: nat)
    requires |s| == |s'| && 1 <= g <= 3 && forall w: nat | 2 * w + 1 < |s| :: PairWiped(s, s', w, g)
    ensures WipedAll(s, s', g)
  {
    forall q: Pos | 2 * q.pair + 1 < |s| && q.bit < 64
      ensures Gen(s', q) == if Gen(s, q) == g then 0 else Gen(s, q)
    {
      assert PairWiped(s, s', q.pair, g);
      WipedBit(s[2 * q.pair], s[2 * q.pair], s[2 * q.pair + 1], g, q.bit);
      WipedBit(s[2 * q.pair + 1], s[2 * q.pair], s[2 * q.pair + 1], g, q.bit);
    }
  }

  lemma ShowsAfterWipe<K(!new)>(data: seq<uint64>, data': seq<uint64>, hash: (nat, K) -> nat, funcs: nat,
                                history: seq<K>, g: nat, n: nat)
    requires |data| > 0 && |data| % 2 == 0 && n > 0 && |history| == g * n + n
    requires Shows(data, hash, funcs, history, g, n) && WipedAll(data, data', 1 + (g + 1) % 3)
    ensures Shows(data', hash, funcs, history, g + 1, n) && |history| == (g + 1) * n
  {
    Distribute(g, 1, n);
    forall p: Pos | 2 * p.pair + 1 < |data| && p.bit < 64
      ensures Gen(data', p) == Stamp(Last(hash, |data|, funcs, history, |history|, p), g + 1, n)
    {
      var last := Last(hash, |data|, funcs, history, |history|, p);
      GenerationOf(last, g, n);
      StampAges(last, g, n);
    }
  }

  // Insertions before the end of generation g are of no later one.
  lemma GenerationOf(i: int, g: nat, n: nat)
    requires n > 0 && i < (g + 1) * n
    ensures i / n <= g
  {
    DivModOf(i, n);
    if i / n > g { MulMono(g + 1, i / n, n); }
  }

  // Writing the positions of a key's first k hashes.
  ghost predicate Written<K(!new)>(data: seq<uint64>, data': seq<uint64>, hash: (nat, K) -> nat, key: K, k: nat, g: nat) {
    && |data'| == |data| > 0 && |data| % 2 == 0
    && forall p: Pos | 2 * p.pair + 1 < |data| && p.bit < 64 ::
      Gen(data', p) == if Touches(hash, |data|, key, k, p) then g else Gen(data, p)
  }

  lemma WrittenOne<K(!new)>(data: seq<uint64>, mid: seq<uint64>, data': seq<uint64>, hash: (nat, K) -> nat, key: K, k: nat, g: nat)
    requires Written(data, mid, hash, key, k, g) && |data'| == |data|
    requires var q := PosOf(hash(k, key), |data|);
             forall p: Pos | 2 * p.pair + 1 < |data| && p.bit < 64 :: Gen(data', p) == if p == q then g else Gen(mid, p)
    ensures Written(data, data', hash, key, k + 1, g)
  {
    forall p: Pos | 2 * p.pair + 1 < |data| && p.bit < 64
      ensures Gen(data', p) == if Touches(hash, |data|, key, k + 1, p) then g else Gen(data, p)
    {
      TouchesNext(hash, |data|, key, k, p);
    }
  }

  lemma TouchesNext<K(!new)>(hash: (nat, K) -> nat, words: nat, key: K, k: nat, p: Pos)
    requires words > 0 && words % 2 == 0
    ensures Touches(hash, words, key, k + 1, p) <==> Touches(hash, words, key, k, p) || PosOf(hash(k, key), words) == p
  {
  }

  lemma ShowsAfterWrite<K(!new)>(data: seq<uint64>, data': seq<uint64>, hash: (nat, K) -> nat, funcs: nat,
                                 history: seq<K>, key: K, g: nat, n: nat)
    requires |data| > 0 && |data| % 2 == 0 && n > 0 && |history| / n == g
    requires Shows(data, hash, funcs, history, g, n) && Written(data, data', hash, key, funcs, 1 + g % 3)
    ensures Shows(data', hash, funcs, history + [key], g, n)
  {
    var h := history + [key];
    forall p: Pos | 2 * p.pair + 1 < |data| && p.bit < 64
      ensures Gen(data', p) == Stamp(Last(hash, |data|, funcs, h, |h|, p), g, n)
    {
      LastAppend(hash, |data|, funcs, history, key, |history|, p);
    }
  }

  lemma {:induction false} LastAppend<K(!new)>(hash: (nat, K) -> nat, words: nat, funcs: nat, history: seq<K>, key: K, m: nat, p: Pos)
    requires words > 0 && words % 2 == 0 && m <= |history|
    ensures Last(hash, words, funcs, history + [key], m, p) == Last(hash, words, funcs, history, m, p)
  {
    if m > 0 { LastAppend(hash, words, funcs, history, key, m - 1, p); }
  }

  // An insertion of one of the last three generations fell on p.
  ghost predicate Fresh<K(!new)>(hash: (nat, K) -> nat, words: nat, funcs: nat, history: seq<K>, g: int, n: nat, p: Pos)
    requires words > 0 && words % 2 == 0 && n > 0
  {
    exists i :: 0 <= i < |history| && i / n >= g - 2 && Touches(hash, words, history[i], funcs, p)
  }

  // A position is set exactly if it is fresh.
  lemma SetIffFresh<K(!new)>(data: seq<uint64>, hash: (nat, K) -> nat, funcs: nat, history: seq<K>, g: int, n: nat, p: Pos)
    requires |data| > 0 && |data| % 2 == 0 && n > 0 && Shows(data, hash, funcs, history, g, n)
    requires 2 * p.pair + 1 < |data| && p.bit < 64
    ensures Gen(data, p) != 0 <==> Fresh(hash, |data|, funcs, history, g, n, p)
  {
    var last := Last(hash, |data|, funcs, history, |history|, p);
    forall i | 0 <= i < |history| && i / n >= g - 2 && Touches(hash, |data|, history[i], funcs, p)
      ensures last >= 0 && last / n >= g - 2
    {
      DivMono(i, last, n);
    }
  }

  lemma DivMono(a: int, b: int, n: nat)
    requires n > 0 && a <= b
    ensures a / n <= b / n
  {
    DivModOf(a, n);
    DivModOf(b, n);
    if a / n > b / n { MulMono(b / n + 1, a / n, n); Distribute(b / n, 1, n); }
  }

  // The insertions of the last two generations before the current one's first.
  lemma RecentGeneration(i: nat, total: nat, g: nat, entries: nat, n: nat)
    requires n > 0 && total == g * n + entries && 1 <= entries <= n && total - (2 * n + 1) <= i
    ensures i / n >= g - 2
  {
    Distribute(g, -2, n);
    DivMono((g - 2) * n, i, n);
    ModOfMultiple(g - 2, n);
  }

  class RollingBloomFilter<K(!new)> {
    const nEntriesPerGeneration: nat
    const nHashFuncs: nat
    const data: array<uint64>
    var nEntriesThisGeneration: nat
    var nGeneration: nat
    var hash: (nat, K) -> nat                  // RollingBloomHash under the current nTweak
    ghost var history: seq<K>                  // the keys inserted since the last reset
    ghost var g: nat                           // the generation, counted from 0

    ghost predicate Shape() {
      nEntriesPerGeneration > 0 && data.Length > 0 && data.Length % 2 == 0
    }

    ghost predicate Valid()
      reads this, data
    {
      && Shape() && nGeneration == 1 + g % 3 && nEntriesThisGeneration <= nEntriesPerGeneration
      && |history| == g * nEntriesPerGeneration + nEntriesThisGeneration && (nEntriesThisGeneration == 0 ==> history == [])
      && Shows(data[..], hash, nHashFuncs, history, g, nEntriesPerGeneration)
    }

    // The numbers of hash functions and words follow from the rate of false positives.
    constructor (nElements: nat, nHashFuncs: nat, words: nat, hash: (nat, K) -> nat)
      requires nElements > 0 && words > 0 && words % 2 == 0
      ensures Valid() && fresh(data) && history == [] && nEntriesPerGeneration == (nElements + 1) / 2
    {
      nEntriesPerGeneration := (nElements + 1) / 2;
      this.nHashFuncs, this.hash := nHashFuncs, hash;
      data := new uint64[words](_ => 0);
      nEntriesThisGeneration, nGeneration := 0, 1;
      history, g := [], 0;
      new;
      ShowsNothing(data[..], hash, nHashFuncs, nEntriesPerGeneration);
    }

    method Reset(newHash: (nat, K) -> nat)
      requires Shape()
      modifies this`nEntriesThisGeneration, this`nGeneration, this`hash, this`history, this`g, data
      ensures Valid() && history == []
    {
      hash, nEntriesThisGeneration, nGeneration := newHash, 0, 1;
      history, g := [], 0;
      Clear();
      ShowsNothing(data[..], hash, nHashFuncs, nEntriesPerGeneration);
    }

    method Clear()
      modifies data
      ensures forall k | 0 <= k < data.Length :: data[k] == 0
    {
      for i := 0 to data.Length
        invariant forall k | 0 <= k < i :: data[k] == 0
      {
        data[i] := 0;
      }
    }

    // Wipe old entries that used this generation number.
    method Wipe(gen: nat)
      requires Shape() && 1 <= gen <= 3
      modifies data
      ensures WipedAll(old(data[..]), data[..], gen)
    {
      ghost var s := data[..];
      var p := 0;
      while p < data.Length
        invariant p <= data.Length && p % 2 == 0
        invariant forall k | p <= k < data.Length :: data[k] == s[k]
        invariant forall w: nat | 2 * w + 1 < p :: PairWiped(s, data[..], w, gen)
      {
        ghost var before := data[..];
        var p1, p2 := data[p], data[p + 1];
        data[p] := Wiped(p1, p1, p2, gen);
        data[p + 1] := Wiped(p2, p1, p2, gen);
        forall w: nat | 2 * w + 1 < p + 2 ensures PairWiped(s, data[..], w, gen) {
          if 2 * w + 1 < p { assert PairWiped(s, before, w, gen); }
        }
        p := p + 2;
      }
      PairsWiped(s, data[..], gen);
    }

    // The two bits at the position of a hash become the generation number.
    method Mark(h: nat, gen: nat)
      requires Shape() && 1 <= gen <= 3
      modifies data
      ensures forall p: Pos | 2 * p.pair + 1 < data.Length && p.bit < 64 ::
                Gen(data[..], p) == if p == PosOf(h, data.Length) then gen else old(Gen(data[..], p))
    {
      ghost var s := data[..];
      var bit := h % 64;
      var pos := h / 64 % data.Length;
      var low, high := pos / 2 * 2, pos / 2 * 2 + 1;          // pos & ~1, pos | 1
      data[low] := Put(data[low], bit, gen % 2);
      data[high] := Put(data[high], bit, gen / 2);
      forall p: Pos | 2 * p.pair + 1 < |s| && p.bit < 64
        ensures Gen(data[..], p) == if p == PosOf(h, |s|) then gen else Gen(s, p)
      {
        if p.pair == pos / 2 {
          PutBit(s[low], bit, gen % 2, p.bit);
          PutBit(s[high], bit, gen / 2, p.bit);
        }
      }
    }

    // All positions of the key.
    method MarkAll(key: K)
      requires Shape() && 1 <= nGeneration <= 3
      modifies data
      ensures Written(old(data[..]), data[..], hash, key, nHashFuncs, nGeneration)
    {
      ghost var s := data[..];
      for k := 0 to nHashFuncs
        invariant Written(s, data[..], hash, key, k, nGeneration)
      {
        ghost var mid := data[..];
        Mark(hash(k, key), nGeneration);
        WrittenOne(s, mid, data[..], hash, key, k, nGeneration);
      }
    }

    // The next generation takes over the number of the oldest.
    method NextGeneration()
      requires Valid() && nEntriesThisGeneration == nEntriesPerGeneration
      modifies this`nEntriesThisGeneration, this`nGeneration, this`g, data
      ensures nEntriesThisGeneration == 0 && nGeneration == 1 + g % 3 && |history| == g * nEntriesPerGeneration
      ensures Shows(data[..], hash, nHashFuncs, history, g, nEntriesPerGeneration)
    {
      ghost var s, n := data[..], nEntriesPerGeneration;
      nEntriesThisGeneration := 0;
      nGeneration := nGeneration + 1;
      if nGeneration == 4 {
        nGeneration := 1;
      }
      assert nGeneration == 1 + (g + 1) % 3;
      Wipe(nGeneration);
      ShowsAfterWipe(s, data[..], hash, nHashFuncs, history, g, n);
      g := g + 1;
    }

    method Insert(key: K)
      requires Valid()
      modifies this`nEntriesThisGeneration, this`nGeneration, this`history, this`g, data
      ensures Valid() && history == old(history) + [key]
    {
      if nEntriesThisGeneration == nEntriesPerGeneration {
        NextGeneration();
      }
      nEntriesThisGeneration := nEntriesThisGeneration + 1;
      ghost var s := data[..];
      MarkAll(key);
      DivModUnique(|history|, g, nEntriesThisGeneration - 1, nEntriesPerGeneration);
      ShowsAfterWrite(s, data[..], hash, nHashFuncs, history, key, g, nEntriesPerGeneration);
      history := history + [key];
    }

    // True exactly if each position of the key was written in one of the last three
    // generations; always for the keys of the last two and one insertion more.
    method Contains(key: K) returns (r: bool)
      requires Valid()
      ensures r <==> forall k: nat | k < nHashFuncs ::
                Fresh(hash, data.Length, nHashFuncs, history, g, nEntriesPerGeneration, PosOf(hash(k, key), data.Length))
      ensures (exists i :: |history| - (2 * nEntriesPerGeneration + 1) <= i < |history| && 0 <= i && history[i] == key) ==> r
    {
      r := true;
      for k := 0 to nHashFuncs
        invariant forall j: nat | j < k ::
          Fresh(hash, data.Length, nHashFuncs, history, g, nEntriesPerGeneration, PosOf(hash(j, key), data.Length))
      {
        var marked := IsSet(hash(k, key));
        SetIffFresh(data[..], hash, nHashFuncs, history, g, nEntriesPerGeneration, PosOf(hash(k, key), data.Length));
        if !marked {
          NotRecent(key, k);
          return false;
        }
      }
    }

    // Whether either bit at the position of a hash is set.
    method IsSet(h: nat) returns (r: bool)
      requires Shape()
      ensures r <==> Gen(data[..], PosOf(h, data.Length)) != 0
    {
      var bit := h % 64;
      var pos := h / 64 % data.Length;
      var word := Or(data[pos / 2 * 2], data[pos / 2 * 2 + 1]);
      BitShr(word, bit);
      BitOr(data[pos / 2 * 2], data[pos / 2 * 2 + 1], bit);
      r := Shr(word, bit) % 2 == 1;
    }

    // A key inserted recently has every position fresh.
    lemma NotRecent(key: K, k: nat)
      requires Valid() && k < nHashFuncs
      requires !Fresh(hash, data.Length, nHashFuncs, history, g, nEntriesPerGeneration, PosOf(hash(k, key), data.Length))
      ensures forall i | |history| - (2 * nEntriesPerGeneration + 1) <= i < |history| && 0 <= i :: history[i] != key
    {
      var n := nEntriesPerGeneration;
      forall i | |history| - (2 * n + 1) <= i < |history| && 0 <= i ensures history[i] != key {
        RecentGeneration(i, |history|, g, nEntriesThisGeneration, n);
        assert Touches(hash, data.Length, key, nHashFuncs, PosOf(hash(k, key), data.Length));
      }
    }
  }
}
