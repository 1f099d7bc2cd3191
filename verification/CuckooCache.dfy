// The cuckoo cache of src/cuckoocache.h: a fixed table where an element has eight
// possible places, lazy erasure by flags, and epochs that bound what stays alive.

module CuckooCache {
  import opened Arithmetic

  type byte = x: int | 0 <= x < 256

  /******* bit_packed_atomic_flags *******/

  lemma ByteBits()
    ensures Pow2(8) == 256 && forall k: nat | k < 8 :: Bit(255, k) && Pow2(k) < 256
  {
    Pow2Values();
    forall k: nat | k < 8 ensures Bit(255, k) && Pow2(k) < 256 {
      BitZero(k);
      BitNot(0, 8, k);
      Pow2Monotone(k, 7);
    }
  }

  class BitPackedFlags {
    const mem: array<byte>

    ghost predicate Holds(n: nat) {
      n <= 8 * mem.Length
    }

    ghost function Flag(s: nat): bool
      requires s / 8 < mem.Length
      reads mem
    {
      Bit(mem[s / 8], s % 8)
    }

    // The first n flags.
    ghost function Flags(n: nat): (f: seq<bool>)
      requires Holds(n)
      reads mem
      ensures |f| == n && forall k | 0 <= k < n :: f[k] == Flag(k)
    {
      seq(n, k requires 0 <= k < n reads mem => Flag(k))
    }

    // All flags start set.
    constructor (size: nat)
      ensures fresh(mem) && Holds(size) && forall s: nat | s < size :: Flag(s)
    {
      var bytes := (size + 7) / 8;
      mem := new byte[bytes](_ => 255);
      new;
      ByteBits();
    }

    method BitSet(s: nat)
      requires s / 8 < mem.Length
      modifies mem
      ensures forall t: nat | t / 8 < mem.Length :: Flag(t) == (t == s || old(Flag(t)))
    {
      ByteBits();
      OrBound(mem[s / 8], Pow2(s % 8), 8);
      ghost var x := mem[s / 8];
      mem[s / 8] := Or(mem[s / 8], Pow2(s % 8));
      forall t: nat | t / 8 == s / 8 ensures Flag(t) == (t == s || Bit(x, t % 8)) {
        BitOr(x, Pow2(s % 8), t % 8);
        BitPow2(s % 8, t % 8);
      }
    }

    method BitUnset(s: nat)
      requires s / 8 < mem.Length
      modifies mem
      ensures forall t: nat | t / 8 < mem.Length :: Flag(t) == (t != s && old(Flag(t)))
    {
      ByteBits();
      ghost var x := mem[s / 8];
      AndBound(mem[s / 8], 255 - Pow2(s % 8));
      mem[s / 8] := And(mem[s / 8], 255 - Pow2(s % 8));
      forall t: nat | t / 8 == s / 8 ensures Flag(t) == (t != s && Bit(x, t % 8)) {
        BitAnd(x, 255 - Pow2(s % 8), t % 8);
        BitNot(Pow2(s % 8), 8, t % 8);
        BitPow2(s % 8, t % 8);
      }
    }

    method BitIsSet(s: nat) returns (r: bool)
      requires s / 8 < mem.Length
      ensures r == Flag(s)
    {
      AndPow2(mem[s / 8], s % 8);
      r := And(Pow2(s % 8), mem[s / 8]) != 0;
    }
  }

  /******* Where elements are *******/

  // compute_hashes: the mask is one less than a power of two.
  function LocsOf<E>(hash: (E, nat) -> nat, mask: nat, e: E): (locs: seq<nat>)
    ensures |locs| == 8 && forall k | 0 <= k < 8 :: locs[k] <= mask
  {
    seq(8, k requires 0 <= k < 8 => Slot(hash, mask, e, k))
  }

  function Slot<E>(hash: (E, nat) -> nat, mask: nat, e: E, k: nat): (loc: nat)
    ensures loc <= mask
  {
    AndBound(hash(e, k), mask);
    And(hash(e, k), mask)
  }

  // Every element but the blank one is at one of its places, and there only.
  ghost predicate Homed<E(!new)>(hash: (E, nat) -> nat, mask: nat, blank: E, t: seq<E>) {
    && (forall i | 0 <= i < |t| :: t[i] == blank || i in LocsOf(hash, mask, t[i]))
    && (forall i, j | 0 <= i < j < |t| :: t[i] == t[j] ==> t[i] == blank)
  }

  // An element at none of its places is not in the table.
  lemma Absent<E(!new)>(hash: (E, nat) -> nat, mask: nat, blank: E, t: seq<E>, e: E)
    requires Homed(hash, mask, blank, t) && |t| == mask + 1 && e != blank
    requires forall k | 0 <= k < 8 :: t[LocsOf(hash, mask, e)[k]] != e
    ensures e !in t
  {
    var locs := LocsOf(hash, mask, e);
    forall i | 0 <= i < |t| ensures t[i] != e {
      assert i in locs ==> t[i] != e;
    }
  }

  // The element in hand goes to one of its places, and the one there is in hand.
  lemma ExchangeHomed<E(!new)>(hash: (E, nat) -> nat, mask: nat, blank: E, t: seq<E>, e: E, loc: nat)
    requires Homed(hash, mask, blank, t) && loc < |t| && loc in LocsOf(hash, mask, e) && (e == blank || e !in t)
    ensures Homed(hash, mask, blank, t[loc := e]) && (t[loc] == blank || t[loc] !in t[loc := e])
  {
    var t' := t[loc := e];
    if t[loc] != blank {
      forall i | 0 <= i < |t'| ensures t'[i] != t[loc] {
        if i == loc { assert t[loc] in t; }
      }
    }
  }

  /******* What is alive *******/

  function One(b: bool): nat { if b then 1 else 0 }

  // How many of the first n slots hold what may not be erased yet, of one epoch.
  ghost function Alive(garbage: seq<bool>, epoch: seq<bool>, current: bool, n: nat): nat
    requires n <= |garbage| == |epoch|
  {
    if n == 0 then 0 else Alive(garbage, epoch, current, n - 1) + One(!garbage[n - 1] && epoch[n - 1] == current)
  }

  lemma {:induction false} AliveSame(g: seq<bool>, p: seq<bool>, g': seq<bool>, p': seq<bool>, c: bool, n: nat)
    requires n <= |g| == |p| && n <= |g'| == |p'|
    requires forall k | 0 <= k < n :: g[k] == g'[k] && p[k] == p'[k]
    ensures Alive(g', p', c, n) == Alive(g, p, c, n)
  {
    if n > 0 { AliveSame(g, p, g', p', c, n - 1); }
  }

  lemma {:induction false} AlivePut(g: seq<bool>, p: seq<bool>, i: nat, a: bool, b: bool, c: bool, n: nat)
    requires i < n <= |g| == |p|
    ensures Alive(g[i := a], p[i := b], c, n) + One(!g[i] && p[i] == c) == Alive(g, p, c, n) + One(!a && b == c)
  {
    if i < n - 1 {
      AlivePut(g, p, i, a, b, c, n - 1);
    } else {
      AliveSame(g, p, g[i := a], p[i := b], c, n - 1);
    }
  }

  // The elements that may not be erased yet.
  ghost function Kept<E>(t: seq<E>, garbage: seq<bool>, n: nat): multiset<E>
    requires n <= |t| == |garbage|
  {
    if n == 0 then multiset{} else Kept(t, garbage, n - 1) + (if garbage[n - 1] then multiset{} else multiset{t[n - 1]})
  }

  lemma {:induction false} KeptSame<E>(t: seq<E>, g: seq<bool>, t': seq<E>, g': seq<bool>, n: nat)
    requires n <= |t| == |g| && n <= |t'| == |g'| && forall k | 0 <= k < n :: t[k] == t'[k] && g[k] == g'[k]
    ensures Kept(t', g', n) == Kept(t, g, n)
  {
    if n > 0 { KeptSame(t, g, t', g', n - 1); }
  }

  lemma {:induction false} KeptPut<E>(t: seq<E>, g: seq<bool>, i: nat, e: E, n: nat)
    requires i < n <= |t| == |g|
    ensures Kept(t[i := e], g[i := false], n) + (if g[i] then multiset{} else multiset{t[i]}) == Kept(t, g, n) + multiset{e}
  {
    if i < n - 1 {
      KeptPut(t, g, i, e, n - 1);
    } else {
      KeptSame(t, g, t[i := e], g[i := false], n - 1);
    }
  }

  /******* Epochs *******/

  // The bound on the slots alive of one epoch.
  function EpochLimit(epochSize: nat): nat {
    epochSize + (if epochSize / 16 > 1 then epochSize / 16 else 1)
  }

  // `room` more insertions can be made within the bound on the current epoch, and the
  // one before is within its own.
  ghost predicate Bounded(garbage: seq<bool>, epoch: seq<bool>, counter: int, epochSize: nat)
    requires |garbage| == |epoch|
  {
    && Alive(garbage, epoch, true, |garbage|) + counter <= EpochLimit(epochSize)
    && Alive(garbage, epoch, false, |garbage|) <= EpochLimit(epochSize)
  }

  lemma {:induction false} AliveParts(g: seq<bool>, p: seq<bool>, n: nat)
    requires n <= |g| == |p|
    ensures Alive(g, p, true, n) + Alive(g, p, false, n) == Unflagged(g, n)
  {
    if n > 0 { AliveParts(g, p, n - 1); }
  }

  ghost function Unflagged(g: seq<bool>, n: nat): nat
    requires n <= |g|
  {
    if n == 0 then 0 else Unflagged(g, n - 1) + One(!g[n - 1])
  }

  // Never more than twice the bound is alive in all.
  lemma TotalBounded(garbage: seq<bool>, epoch: seq<bool>, counter: nat, epochSize: nat)
    requires |garbage| == |epoch| && Bounded(garbage, epoch, counter, epochSize)
    ensures Unflagged(garbage, |garbage|) <= 2 * EpochLimit(epochSize)
  {
    AliveParts(garbage, epoch, |garbage|);
  }

  // Turning the epoch over: the old one's slots become garbage, and the current one
  // is the old one now.
  ghost predicate TurnedOver(g: seq<bool>, p: seq<bool>, g': seq<bool>, p': seq<bool>) {
    |g| == |p| == |g'| == |p'| && forall k | 0 <= k < |g| :: !p'[k] && g'[k] == (g[k] || !p[k])
  }

  lemma {:induction false} TurnOverCounts(g: seq<bool>, p: seq<bool>, g': seq<bool>, p': seq<bool>, n: nat)
    requires TurnedOver(g, p, g', p') && n <= |g|
    ensures Alive(g', p', true, n) == 0 && Alive(g', p', false, n) == Alive(g, p, true, n)
  {
    if n > 0 { TurnOverCounts(g, p, g', p', n - 1); }
  }

  // Erasing makes room.
  lemma EraseBounded(g: seq<bool>, p: seq<bool>, i: nat, counter: nat, epochSize: nat)
    requires i < |g| == |p| && Bounded(g, p, counter, epochSize)
    ensures Bounded(g[i := true], p, counter, epochSize)
  {
    assert p[i := p[i]] == p;
    AlivePut(g, p, i, true, p[i], true, |g|);
    AlivePut(g, p, i, true, p[i], false, |g|);
  }

  // An element at slot i is kept, as one of the current epoch.
  lemma KeepBounded(g: seq<bool>, p: seq<bool>, i: nat, counter: nat, epochSize: nat)
    requires i < |g| == |p| && Bounded(g, p, counter + 1, epochSize)
    ensures Bounded(g[i := false], p[i := true], counter, epochSize)
  {
    AlivePut(g, p, i, false, true, true, |g|);
    AlivePut(g, p, i, false, true, false, |g|);
  }

  /******* A run of exchanges *******/

  // The table and flags during insert, with element e of epoch `last` in hand, against
  // those at its start, when e0 of the current epoch was.
  ghost predicate Carried<E>(t0: seq<E>, p0: seq<bool>, e0: E, t: seq<E>, p: seq<bool>, g: seq<bool>, e: E, last: bool) {
    && |t0| == |p0| == |t| == |p| == |g|
    && multiset(t) + multiset{e} == multiset(t0) + multiset{e0}
    && Kept(t, g, |g|) + multiset{e} == Kept(t0, g, |g|) + multiset{e0}
    && (forall k | 0 <= k < |g| && g[k] :: t[k] == t0[k])
    && Alive(g, p, true, |g|) + One(last) == Alive(g, p0, true, |g|) + 1
    && Alive(g, p, false, |g|) + One(!last) == Alive(g, p0, false, |g|)
  }

  lemma CarriedExchange<E>(t0: seq<E>, p0: seq<bool>, e0: E, t: seq<E>, p: seq<bool>, g: seq<bool>, e: E, last: bool, loc: nat)
    requires Carried(t0, p0, e0, t, p, g, e, last) && loc < |g| && !g[loc]
    ensures Carried(t0, p0, e0, t[loc := e], p[loc := last], g, t[loc], p[loc])
  {
    assert g[loc := false] == g;
    KeptPut(t, g, loc, e, |g|);
    AlivePut(g, p, loc, false, last, true, |g|);
    AlivePut(g, p, loc, false, last, false, |g|);
  }

  // What insert does, on the table after it and the elements kept.
  datatype Outcome<E> =
    | AlreadyThere           // and kept now, if it was marked as garbage
    | Stored(dropped: E)     // a slot marked as garbage was overwritten
    | RanOut(dropped: E)     // the depth limit was reached

  ghost predicate Inserted<E>(t0: seq<E>, g0: seq<bool>, e0: E, t: seq<E>, g: seq<bool>, o: Outcome<E>)
    requires |t0| == |g0| && |t| == |g|
  {
    match o
    case AlreadyThere => t == t0 && exists i :: 0 <= i < |t0| && t0[i] == e0 && g == g0[i := false]
    case Stored(x) =>
      && multiset(t) + multiset{x} == multiset(t0) + multiset{e0}
      && (exists i :: 0 <= i < |t0| && g0[i] && t0[i] == x)
      && Kept(t, g, |g|) == Kept(t0, g0, |g0|) + multiset{e0}
    case RanOut(x) =>
      && multiset(t) + multiset{x} == multiset(t0) + multiset{e0}
      && Kept(t, g, |g|) + multiset{x} == Kept(t0, g0, |g0|) + multiset{e0}
  }

  // The element in hand goes to a slot marked as garbage.
  lemma CarriedStored<E>(t0: seq<E>, p0: seq<bool>, e0: E, t: seq<E>, p: seq<bool>, g: seq<bool>, e: E, last: bool,
                         loc: nat, counter: nat, epochSize: nat)
    requires Carried(t0, p0, e0, t, p, g, e, last) && loc < |g| && g[loc] && Bounded(g, p0, counter + 1, epochSize)
    ensures Inserted(t0, g, e0, t[loc := e], g[loc := false], Stored(t[loc]))
    ensures Bounded(g[loc := false], p[loc := last], counter, epochSize)
  {
    KeptPut(t, g, loc, e, |g|);
    AlivePut(g, p, loc, false, last, true, |g|);
    AlivePut(g, p, loc, false, last, false, |g|);
    assert t0[loc] == t[loc];
  }

  /******* Which place is exchanged with *******/

  // The first place of x among the eight, or 8.
  function FirstIndex(locs: seq<nat>, x: nat, k: nat): (i: nat)
    requires k <= |locs|
    ensures k <= i <= |locs| && (i < |locs| ==> locs[i] == x) && forall j | k <= j < i :: locs[j] != x
    decreases |locs| - k
  {
    if k == |locs| || locs[k] == x then k else FirstIndex(locs, x, k + 1)
  }

  // The place after the first that is the last one, around the eight.
  function NextOf(locs: seq<nat>, lastLoc: nat): nat
    requires |locs| == 8
  {
    locs[(1 + FirstIndex(locs, lastLoc, 0)) % 8]
  }

  // ~(uint32_t)0, which is no slot of a table.
  const INVALID: nat := 0xffff_ffff

  // The first exchange of an insertion is with the second place; with the first only if
  // the two are the same.
  lemma FirstExchange<E>(hash: (E, nat) -> nat, mask: nat, e: E)
    requires mask < INVALID
    ensures var locs := LocsOf(hash, mask, e);
            NextOf(locs, INVALID) == locs[1] && (NextOf(locs, INVALID) == locs[0] <==> locs[0] == locs[1])
  {
    assert FirstIndex(LocsOf(hash, mask, e), INVALID, 0) == 8;
  }

  // What was just put in stays if and only if its slot is not both the first place there
  // and the one after it of the element that was there.
  lemma MovesOnIff(locs: seq<nat>, lastLoc: nat)
    requires |locs| == 8
    ensures lastLoc !in locs ==> NextOf(locs, lastLoc) == locs[1] != lastLoc
    ensures forall i | 0 <= i < 8 && locs[i] == lastLoc && lastLoc !in locs[..i] ::
              NextOf(locs, lastLoc) != lastLoc <==> locs[(i + 1) % 8] != locs[i]
  {
    var f := FirstIndex(locs, lastLoc, 0);
    forall i | 0 <= i < 8 && locs[i] == lastLoc && lastLoc !in locs[..i]
      ensures NextOf(locs, lastLoc) != lastLoc <==> locs[(i + 1) % 8] != locs[i]
    {
      assert forall j | 0 <= j < i :: locs[j] in locs[..i];
      assert f == i;
    }
  }

  lemma PutBack<T>(s: seq<T>, k: nat, x: T)
    requires k < |s|
    ensures s[k := x][k] == x && s[k := x][k := s[k]] == s
  {
  }

  // 45 percent of the size, where the product is taken in 32 bits, and at least one.
  function EpochSize(size: nat): nat {
    var epoch := 45 * size % 0x1_0000_0000 / 100;
    if epoch > 1 then epoch else 1
  }

  lemma SizeFits(depthLimit: nat)
    requires depthLimit <= 31
    ensures 0 < Pow2(depthLimit) <= INVALID
  {
    Pow2Values();
    Pow2Monotone(depthLimit, 31);
    assert Pow2(32) == 2 * Pow2(31);
  }

  /******* The cache *******/

  class Cache<E(==, !new)> {
    const hashFunction: (E, nat) -> nat
    const blank: E                             // what a new slot of the table holds
    const depthLimit: nat
    const size: nat
    const hashMask: nat
    const epochSize: nat
    const table: array<E>
    const collectionFlags: BitPackedFlags
    const epochFlags: array<bool>
    var epochHeuristicCounter: nat

    ghost predicate Shape() {
      && table.Length == epochFlags.Length == size == hashMask + 1 <= INVALID && collectionFlags.Holds(size) && epochSize > 0
      && var t: object, p: object, g: object := table, epochFlags, collectionFlags.mem; t != p && t != g && p != g
    }

    ghost function Garbage(): (g: seq<bool>)
      requires Shape()
      reads collectionFlags.mem
      ensures |g| == size
    {
      collectionFlags.Flags(size)
    }

    ghost predicate Within(counter: nat)
      requires Shape()
      reads epochFlags, collectionFlags.mem
    {
      Bounded(Garbage(), epochFlags[..], counter, epochSize)
    }

    ghost predicate Valid()
      reads this, table, epochFlags, collectionFlags.mem
    {
      Shape() && Homed(hashFunction, hashMask, blank, table[..]) && Within(epochHeuristicCounter)
    }

    // A new cache, set up: nothing is alive, and the first scan is a whole epoch away.
    constructor (hashFunction: (E, nat) -> nat, blank: E, depthLimit: nat)
      requires 1 <= depthLimit <= 31
      ensures Valid() && fresh(table) && fresh(collectionFlags) && fresh(collectionFlags.mem) && fresh(epochFlags)
      ensures size == Pow2(depthLimit) && Unflagged(Garbage(), size) == 0
      ensures epochSize == EpochSize(size)
    {
      this.hashFunction, this.blank, this.depthLimit := hashFunction, blank, depthLimit;
      var n := Pow2(depthLimit);
      size, hashMask := n, n - 1;
      table := new E[n](_ => blank);
      collectionFlags := new BitPackedFlags(n);
      epochFlags := new bool[n](_ => false);
      SizeFits(depthLimit);
      var epoch := EpochSize(n);
      epochSize, epochHeuristicCounter := epoch, epoch;
      new;
      AllFlagged(Garbage(), epochFlags[..], size);
    }

    method AllowErase(n: nat)
      requires Shape() && n < size
      modifies collectionFlags.mem
      ensures Garbage() == old(Garbage())[n := true]
    {
      collectionFlags.BitSet(n);
    }

    method PleaseKeep(n: nat)
      requires Shape() && n < size
      modifies collectionFlags.mem
      ensures Garbage() == old(Garbage())[n := false]
    {
      collectionFlags.BitUnset(n);
    }

    // The slots of the current epoch that are alive.
    method CountUnused() returns (count: nat)
      requires Shape()
      ensures count == Alive(Garbage(), epochFlags[..], true, size)
    {
      count := 0;
      for i := 0 to size
        invariant count == Alive(Garbage(), epochFlags[..], true, i)
      {
        var flagged := collectionFlags.BitIsSet(i);
        count := count + if epochFlags[i] && !flagged then 1 else 0;
      }
    }

    method TurnOver()
      requires Shape()
      modifies epochFlags, collectionFlags.mem
      ensures TurnedOver(old(Garbage()), old(epochFlags[..]), Garbage(), epochFlags[..])
    {
      ghost var g, p := Garbage(), epochFlags[..];
      for i := 0 to size
        invariant forall k | 0 <= k < i :: !epochFlags[k] && Garbage()[k] == (g[k] || !p[k])
        invariant forall k | i <= k < size :: epochFlags[k] == p[k] && Garbage()[k] == g[k]
      {
        if epochFlags[i] {
          epochFlags[i] := false;
        } else {
          AllowErase(i);
        }
      }
    }

    // Afterwards there is room for one insertion more than the counter says.
    method EpochCheck()
      requires Shape() && Within(epochHeuristicCounter)
      modifies this`epochHeuristicCounter, epochFlags, collectionFlags.mem
      ensures Within(epochHeuristicCounter + 1)
      ensures Garbage() == old(Garbage()) || TurnedOver(old(Garbage()), old(epochFlags[..]), Garbage(), epochFlags[..])
    {
      if epochHeuristicCounter != 0 {
        epochHeuristicCounter := epochHeuristicCounter - 1;
        return;
      }
      var unused := CountUnused();
      if unused >= epochSize {
        ghost var g, p := Garbage(), epochFlags[..];
        TurnOver();
        TurnOverCounts(g, p, Garbage(), epochFlags[..], size);
        epochHeuristicCounter := epochSize;
      } else {
        var wait := if epochSize / 16 > epochSize - unused then epochSize / 16 else epochSize - unused;
        epochHeuristicCounter := if wait > 1 then wait else 1;
      }
    }

    // Where e is found among its eight places.
    method Find(e: E) returns (found: bool, loc: nat)
      requires Shape() && Homed(hashFunction, hashMask, blank, table[..])
      ensures found ==> loc in LocsOf(hashFunction, hashMask, e) && loc < size && table[loc] == e
      ensures !found ==> forall k | 0 <= k < 8 :: table[LocsOf(hashFunction, hashMask, e)[k]] != e
      ensures e != blank ==> (found <==> e in table[..])
    {
      var locs := LocsOf(hashFunction, hashMask, e);
      for k := 0 to 8
        invariant forall j | 0 <= j < k :: table[locs[j]] != e
      {
        if table[locs[k]] == e {
          return true, locs[k];
        }
      }
      if e != blank { Absent(hashFunction, hashMask, blank, table[..], e); }
      return false, 0;
    }

    // Whether e is in the table; if so and asked to, it is marked as garbage.
    method Contains(e: E, erase: bool) returns (r: bool)
      requires Valid()
      modifies collectionFlags.mem
      ensures Valid()
      ensures r <==> exists k | 0 <= k < 8 :: table[LocsOf(hashFunction, hashMask, e)[k]] == e
      ensures e != blank ==> (r <==> e in table[..])
      ensures !(r && erase) ==> Garbage() == old(Garbage())
      ensures r && erase ==> exists loc :: 0 <= loc < size && table[loc] == e && Garbage() == old(Garbage())[loc := true]
    {
      var loc;
      r, loc := Find(e);
      if r && erase {
        EraseBounded(Garbage(), epochFlags[..], loc, epochHeuristicCounter, epochSize);
        AllowErase(loc);
      }
    }

    // A slot among the eight that is marked as garbage.
    method FreeSlot(locs: seq<nat>) returns (found: bool, loc: nat)
      requires Shape() && forall k | 0 <= k < |locs| :: locs[k] < size
      ensures found ==> loc in locs && loc < size && Garbage()[loc]
      ensures !found ==> forall k | 0 <= k < |locs| :: !Garbage()[locs[k]]
    {
      for k := 0 to |locs|
        invariant forall j | 0 <= j < k :: !Garbage()[locs[j]]
      {
        var flagged := collectionFlags.BitIsSet(locs[k]);
        if flagged {
          return true, locs[k];
        }
      }
      return false, 0;
    }

    // Which of the places to exchange with: the one after the first that is the last, or
    // else the second.
    method NextLoc(locs: seq<nat>, lastLoc: nat) returns (loc: nat)
      requires |locs| == 8
      ensures loc in locs && loc == NextOf(locs, lastLoc)
      ensures lastLoc !in locs ==> loc == locs[1]
    {
      var i := 0;
      while i < 8 && locs[i] != lastLoc
        invariant i <= 8 && FirstIndex(locs, lastLoc, 0) == FirstIndex(locs, lastLoc, i)
      {
        i := i + 1;
      }
      loc := locs[(1 + i) % 8];
    }

    // The state of insert with e in hand.
    ghost predicate Carrying(t0: seq<E>, p0: seq<bool>, g: seq<bool>, e0: E, e: E, last: bool)
      reads this, table, epochFlags, collectionFlags.mem
    {
      && Shape() && Homed(hashFunction, hashMask, blank, table[..]) && (e == blank || e !in table[..])
      && Garbage() == g && Carried(t0, p0, e0, table[..], epochFlags[..], g, e, last)
    }

    // e takes the slot loc, which is marked as garbage.
    method Store(loc: nat, e: E, last: bool, ghost t0: seq<E>, ghost p0: seq<bool>, ghost e0: E)
      requires Shape() && Carrying(t0, p0, Garbage(), e0, e, last) && loc < size && Garbage()[loc]
      requires loc in LocsOf(hashFunction, hashMask, e)
      requires Bounded(Garbage(), p0, epochHeuristicCounter + 1, epochSize)
      modifies table, epochFlags, collectionFlags.mem
      ensures Valid() && Inserted(t0, old(Garbage()), e0, table[..], Garbage(), Stored(old(table[loc])))
    {
      ghost var t, p, g := table[..], epochFlags[..], Garbage();
      ExchangeHomed(hashFunction, hashMask, blank, t, e, loc);
      CarriedStored(t0, p0, e0, t, p, g, e, last, loc, epochHeuristicCounter, epochSize);
      table[loc] := e;
      PleaseKeep(loc);
      epochFlags[loc] := last;
      assert table[..] == t[loc := e] && epochFlags[..] == p[loc := last];
    }

    // e and the element at the slot loc, which is not marked, change places.
    method Exchange(loc: nat, e: E, last: bool, ghost t0: seq<E>, ghost p0: seq<bool>, ghost e0: E)
      returns (e': E, last': bool)
      requires Shape() && Carrying(t0, p0, Garbage(), e0, e, last) && loc < size && !Garbage()[loc]
      requires loc in LocsOf(hashFunction, hashMask, e)
      modifies table, epochFlags
      ensures Carrying(t0, p0, old(Garbage()), e0, e', last')
      ensures e' == old(table[loc]) && table[..] == old(table[..])[loc := e]
      ensures last' == old(epochFlags[loc]) && epochFlags[..] == old(epochFlags[..])[loc := last]
    {
      ghost var t, p, g := table[..], epochFlags[..], Garbage();
      ExchangeHomed(hashFunction, hashMask, blank, t, e, loc);
      CarriedExchange(t0, p0, e0, t, p, g, e, last, loc);
      e', table[loc] := table[loc], e;
      last', epochFlags[loc] := epochFlags[loc], last;
      assert table[..] == t[loc := e] && epochFlags[..] == p[loc := last];
    }

    // Two turns of the loop of insert where what is evicted has the slot just written at
    // place i and again at the next: they undo each other.
    method ExchangedBack(loc: nat, e: E, last: bool, ghost i: nat, ghost t0: seq<E>, ghost p0: seq<bool>, ghost e0: E)
      returns (e': E, last': bool)
      requires Shape() && Carrying(t0, p0, Garbage(), e0, e, last) && loc < size && !Garbage()[loc]
      requires loc in LocsOf(hashFunction, hashMask, e)
      requires var locs := LocsOf(hashFunction, hashMask, table[loc]);
               i < 8 && locs[i] == locs[(i + 1) % 8] == loc && loc !in locs[..i]
      modifies table, epochFlags
      ensures e' == e && last' == last && table[..] == old(table[..]) && epochFlags[..] == old(epochFlags[..])
    {
      ghost var t, p := table[..], epochFlags[..];
      e', last' := Exchange(loc, e, last, t0, p0, e0);
      var locs := LocsOf(hashFunction, hashMask, e');
      MovesOnIff(locs, loc);
      var next := NextLoc(locs, loc);
      assert next == loc;
      PutBack(t, loc, e);
      PutBack(p, loc, last);
      e', last' := Exchange(loc, e', last', t0, p0, e0);
    }

    // The loop of insert.
    method InsertAbsent(e0: E) returns (ghost o: Outcome<E>)
      requires Shape() && Homed(hashFunction, hashMask, blank, table[..]) && (e0 == blank || e0 !in table[..])
      requires Within(epochHeuristicCounter + 1)
      modifies table, epochFlags, collectionFlags.mem
      ensures Valid() && Inserted(old(table[..]), old(Garbage()), e0, table[..], Garbage(), o) && !o.AlreadyThere?
    {
      ghost var t0, p0, g := table[..], epochFlags[..], Garbage();
      var e, lastLoc, lastEpoch := e0, INVALID, true;
      for depth := 0 to depthLimit
        invariant Carrying(t0, p0, g, e0, e, lastEpoch)
      {
        var locs := LocsOf(hashFunction, hashMask, e);
        var found, loc := FreeSlot(locs);
        if found {
          o := Stored(table[loc]);
          Store(loc, e, lastEpoch, t0, p0, e0);
          return;
        }
        lastLoc := NextLoc(locs, lastLoc);
        e, lastEpoch := Exchange(lastLoc, e, lastEpoch, t0, p0, e0);
      }
      o := RanOut(e);
    }

    // insert: the table gains e and loses one element, which was marked as garbage
    // unless the depth limit ran out, or e was there.
    method Insert(e: E) returns (ghost g: seq<bool>, ghost o: Outcome<E>)
      requires Valid()
      modifies this`epochHeuristicCounter, table, epochFlags, collectionFlags.mem
      ensures Valid()
      ensures g == old(Garbage()) || TurnedOver(old(Garbage()), old(epochFlags[..]), g, seq(size, _ => false))
      ensures |g| == size && Inserted(old(table[..]), g, e, table[..], Garbage(), o)
    {
      EpochCheck();
      g := Garbage();
      var found, loc := Find(e);
      if found {
        KeepBounded(g, epochFlags[..], loc, epochHeuristicCounter, epochSize);
        ghost var p := epochFlags[..];
        PleaseKeep(loc);
        epochFlags[loc] := true;
        assert epochFlags[..] == p[loc := true];
        o := AlreadyThere;
        return;
      }
      o := InsertAbsent(e);
    }
  }

  lemma {:induction false} AllFlagged(g: seq<bool>, p: seq<bool>, n: nat)
    requires n <= |g| == |p| && forall k | 0 <= k < n :: g[k]
    ensures Alive(g, p, true, n) == 0 && Alive(g, p, false, n) == 0 && Unflagged(g, n) == 0
  {
    if n > 0 { AllFlagged(g, p, n - 1); }
  }

  // After an insertion that did not run out of depth, the element is there to stay and
  // so is everything that was.
  lemma StoredStays<E(!new)>(t0: seq<E>, g0: seq<bool>, e: E, t: seq<E>, g: seq<bool>, o: Outcome<E>)
    requires |t0| == |g0| && |t| == |g| && Inserted(t0, g0, e, t, g, o) && o.Stored?
    ensures e in t && forall x | x in Kept(t0, g0, |g0|) :: x in t
  {
    forall x | x in Kept(t, g, |g|) ensures x in t {
      KeptInTable(t, g, |g|, x);
    }
    assert e in Kept(t, g, |g|);
  }

  lemma {:induction false} KeptInTable<E>(t: seq<E>, g: seq<bool>, n: nat, x: E)
    requires n <= |t| == |g| && x in Kept(t, g, n)
    ensures x in t
  {
    if n > 0 && x in Kept(t, g, n - 1) { KeptInTable(t, g, n - 1, x); }
  }

  /******* Runs *******/

  datatype Op<E> = DoInsert(e: E) | DoContains(e: E, erase: bool)

  // Whatever is inserted and erased, no more than twice the bound is ever alive.
  method Run<E(==, !new)>(hash: (E, nat) -> nat, blank: E, depthLimit: nat, ops: seq<Op<E>>) returns (c: Cache<E>)
    requires 1 <= depthLimit <= 31
    ensures c.Valid() && Unflagged(c.Garbage(), c.size) <= 2 * EpochLimit(c.epochSize)
  {
    c := new Cache(hash, blank, depthLimit);
    for i := 0 to |ops|
      invariant c.Valid() && fresh(c) && fresh(c.table) && fresh(c.epochFlags) && fresh(c.collectionFlags.mem)
    {
      match ops[i]
      case DoInsert(e) => ghost var _, _ := c.Insert(e);
      case DoContains(e, erase) => var _ := c.Contains(e, erase);
    }
    TotalBounded(c.Garbage(), c.epochFlags[..], c.epochHeuristicCounter, c.epochSize);
  }
}
