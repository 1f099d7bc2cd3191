// The coins views as objects: a database and caches chained through `base`.
// Each method is tied to the operation of module Coins on the value the chain
// stands for, and the public ones state their effect on the unspent set.

module CoinsCache {
  import opened Options
  import opened Coins

  lemma WriteDirtyPut(coins: Ledger, done: CoinsMap, op: OutPoint, e: Entry)
    requires op !in done
    ensures WriteDirty(coins, done[op := e]) ==
            var l := WriteDirty(coins, done);
            if !e.isDirty then l else if e.coin.IsSpent() then l - {op} else l[op := e.coin]
  {
    var l, r := WriteDirty(coins, done[op := e]), WriteDirty(coins, done);
    assert forall k | k != op :: k in l <==> k in r;
    assert forall k | k != op && k in l :: l[k] == r[k];
  }

  // Merging one more entry of the child.
  lemma MergeAllPut(was: CoinsMap, done: CoinsMap, op: OutPoint, e: Entry, now: CoinsMap)
    requires op !in done && !AnyMisapplied(was, done) && !Misapplied(Lookup(was, op), e)
    requires Lookup(now, op) == MergeEntry(Lookup(was, op), e)
    requires forall k | k != op :: Lookup(now, k) == Lookup(MergeAll(was, done), k)
    ensures now == MergeAll(was, done[op := e]) && !AnyMisapplied(was, done[op := e])
  {
    var r := MergeAll(was, done[op := e]);
    forall k
      ensures k in now <==> k in r
      ensures k in now ==> now[k] == r[k]
    {
      assert Lookup(now, k) == Lookup(r, k);
    }
  }

  lemma MergeAllNone(was: CoinsMap)
    ensures MergeAll(was, map[]) == was && !AnyMisapplied(was, map[])
  {
    var r := MergeAll(was, map[]);
    assert forall k :: k in r <==> k in was;
    assert forall k | k in r :: r[k] == was[k];
  }

  lemma MergeAllAt(was: CoinsMap, done: CoinsMap, op: OutPoint)
    requires op !in done
    ensures Lookup(MergeAll(was, done), op) == Lookup(was, op)
  {
  }

  // A loop over a map has worked off `done` and still has `todo` of `all`.
  ghost predicate Split(done: CoinsMap, todo: CoinsMap, all: CoinsMap) {
    done.Keys !! todo.Keys && done + todo == all
  }

  lemma SplitMove(done: CoinsMap, todo: CoinsMap, all: CoinsMap, op: OutPoint)
    requires Split(done, todo, all) && op in todo
    ensures op in all && all[op] == todo[op] && op !in done
    ensures Split(done[op := todo[op]], todo - {op}, all)
  {
    assert done[op := todo[op]] + (todo - {op}) == all;
  }

  // The loops of BatchWrite, on a database and on a cache.
  ghost predicate Writing(was: Ledger, done: CoinsMap, todo: CoinsMap, all: CoinsMap, now: Ledger) {
    Split(done, todo, all) && now == WriteDirty(was, done)
  }

  lemma WritingStep(was: Ledger, done: CoinsMap, todo: CoinsMap, all: CoinsMap, now: Ledger, op: OutPoint)
    requires Writing(was, done, todo, all, now) && op in todo
    ensures var e := todo[op];
            Writing(was, done[op := e], todo - {op}, all,
                    if !e.isDirty then now else if e.coin.IsSpent() then now - {op} else now[op := e.coin])
  {
    SplitMove(done, todo, all, op);
    WriteDirtyPut(was, done, op, todo[op]);
  }

  lemma WritingEnds(was: Ledger, done: CoinsMap, all: CoinsMap, now: Ledger)
    requires Writing(was, done, map[], all, now)
    ensures now == WriteDirty(was, all)
  {
    assert done == all;
  }

  ghost predicate Merging(was: CoinsMap, done: CoinsMap, todo: CoinsMap, all: CoinsMap, now: CoinsMap) {
    Split(done, todo, all) && !AnyMisapplied(was, done) && now == MergeAll(was, done)
  }

  lemma MergingStarts(was: CoinsMap, all: CoinsMap)
    ensures Merging(was, map[], all, all, was)
  {
    MergeAllNone(was);
  }

  lemma MergingStep(was: CoinsMap, done: CoinsMap, todo: CoinsMap, all: CoinsMap, now: CoinsMap, op: OutPoint, now': CoinsMap)
    requires Merging(was, done, todo, all, now) && op in todo && !Misapplied(Lookup(now, op), todo[op])
    requires Lookup(now', op) == MergeEntry(Lookup(now, op), todo[op])
    requires forall k | k != op :: Lookup(now', k) == Lookup(now, k)
    ensures Merging(was, done[op := todo[op]], todo - {op}, all, now')
  {
    SplitMove(done, todo, all, op);
    MergeAllAt(was, done, op);
    MergeAllPut(was, done, op, todo[op], now');
  }

  lemma MergingFails(was: CoinsMap, done: CoinsMap, todo: CoinsMap, all: CoinsMap, now: CoinsMap, op: OutPoint)
    requires Merging(was, done, todo, all, now) && op in todo && Misapplied(Lookup(now, op), todo[op])
    ensures AnyMisapplied(was, all)
  {
    SplitMove(done, todo, all, op);
    MergeAllAt(was, done, op);
    assert op in all && Misapplied(Lookup(was, op), all[op]);
  }

  lemma MergingEnds(was: CoinsMap, done: CoinsMap, all: CoinsMap, now: CoinsMap)
    requires Merging(was, done, map[], all, now)
    ensures !AnyMisapplied(was, all) && now == MergeAll(was, all)
  {
    assert done == all;
  }

  class CoinsViewDB {
    var coins: Ledger

    constructor (initial: Ledger)
      ensures coins == initial
    {
      coins := initial;
    }

    method GetCoin(op: OutPoint) returns (found: Option<Coin>)
      ensures (Database(coins), found) == Fetch(Database(coins), op)
    {
      found := if op in coins then Some(coins[op]) else None;
    }

    method BatchWrite(mapCoins: CoinsMap)
      modifies this
      ensures Some(Database(coins)) == Coins.BatchWrite(old(Database(coins)), mapCoins)
    {
      var todo := mapCoins;
      ghost var was, done := coins, map[];
      while todo != map[]
        invariant Writing(was, done, todo, mapCoins, coins)
        decreases todo.Keys
      {
        var op :| op in todo;
        var e := todo[op];
        WritingStep(was, done, todo, mapCoins, coins, op);
        if e.isDirty {
          coins := if e.coin.IsSpent() then coins - {op} else coins[op := e.coin];
        }
        done := done[op := e];
        todo := todo - {op};
      }
      WritingEnds(was, done, mapCoins, coins);
    }
  }

  datatype Base = OnDisk(db: CoinsViewDB) | OnCache(cache: CoinsViewCache)

  class CoinsViewCache {
    const base: Base
    var cacheCoins: CoinsMap
    var cachedCoinsUsage: int

    ghost const depth: nat
    ghost const repr: set<object>

    // The chain of bases never changes, so it is well formed once and for all.
    ghost predicate Linked()
      decreases depth
    {
      && this in repr
      && match base
         case OnDisk(db) => repr == {this, db}
         case OnCache(c) =>
           c.depth < depth && c.Linked() && this !in c.repr && repr == {this} + c.repr
    }

    // The view this chain of objects stands for.
    ghost function Abs(): View
      requires Linked()
      reads repr
      decreases depth
    {
      match base
      case OnDisk(db) => Cache(cacheCoins, cachedCoinsUsage, Database(db.coins))
      case OnCache(c) => Cache(cacheCoins, cachedCoinsUsage, c.Abs())
    }

    ghost predicate Valid()
      requires Linked()
      reads repr
    {
      Consistent(Abs())
    }

    ghost function UnspentSet(): Ledger
      requires Linked()
      reads repr
    {
      Unspent(Abs())
    }

    constructor OverDatabase(db: CoinsViewDB)
      ensures Linked() && base == OnDisk(db)
      ensures Abs() == Cache(map[], 0, Database(db.coins))
    {
      base := OnDisk(db);
      cacheCoins, cachedCoinsUsage := map[], 0;
      depth, repr := 0, {this, db};
    }

    constructor OverCache(c: CoinsViewCache)
      requires c.Linked()
      ensures Linked() && base == OnCache(c)
      ensures Abs() == Cache(map[], 0, c.Abs())
    {
      base := OnCache(c);
      cacheCoins, cachedCoinsUsage := map[], 0;
      depth, repr := c.depth + 1, {this} + c.repr;
    }

    // GetCoin of the base view, whichever kind it is.
    method BaseGetCoin(op: OutPoint) returns (found: Option<Coin>)
      requires Linked()
      modifies repr - {this}
      ensures (Abs().base, found) == Fetch(old(Abs().base), op)
      decreases depth, 0
    {
      match base
      case OnDisk(db) => found := db.GetCoin(op);
      case OnCache(c) => found := c.GetCoin(op);
    }

    method GetCoin(op: OutPoint) returns (found: Option<Coin>)
      requires Linked()
      modifies repr
      ensures (Abs(), found) == Fetch(old(Abs()), op)
      decreases depth, 1
    {
      if op in cacheCoins {
        return Some(cacheCoins[op].coin);
      }
      found := BaseGetCoin(op);
      if found.Some? {
        var coin := found.value;
        cacheCoins := cacheCoins[op := Entry(coin, false, coin.IsSpent())];
        cachedCoinsUsage := cachedCoinsUsage + coin.DynamicMemoryUsage();
      }
    }

    method HaveCoin(op: OutPoint) returns (have: bool)
      requires Linked() && Valid()
      modifies repr
      ensures Valid() && Layers(Abs()) == old(Layers(Abs())) && UnspentSet() == old(UnspentSet())
      ensures have <==> op in UnspentSet()
    {
      FetchIsTransparent(Abs(), op);
      var found := GetCoin(op);
      have := found.Some? && !found.value.IsSpent();
    }

    // The coin, or a spent one when there is none.
    method AccessCoin(op: OutPoint) returns (coin: Coin)
      requires Linked() && Valid()
      modifies repr
      ensures Valid() && Layers(Abs()) == old(Layers(Abs())) && UnspentSet() == old(UnspentSet())
      ensures if op in UnspentSet() then coin == UnspentSet()[op] else coin.IsSpent()
    {
      FetchIsTransparent(Abs(), op);
      var found := GetCoin(op);
      coin := if found.Some? then found.value else EMPTY_COIN;
    }

    // `thrown` is the exception for replacing a coin this cache still holds.
    method TryAddCoin(op: OutPoint, coin: Coin, possibleOverwrite: bool, genesisActivationHeight: nat)
      returns (thrown: bool)
      requires Linked() && !coin.IsSpent()
      modifies this
      ensures var r := Coins.AddCoin(old(Abs()), op, coin, possibleOverwrite, genesisActivationHeight);
              thrown == r.None? && (!thrown ==> Abs() == r.value)
    {
      if Unspendable(coin, genesisActivationHeight) {
        return false;
      }
      var markFresh := false;
      if op in cacheCoins {
        cachedCoinsUsage := cachedCoinsUsage - cacheCoins[op].coin.DynamicMemoryUsage();
      }
      var e := if op in cacheCoins then cacheCoins[op] else Entry(EMPTY_COIN, false, false);
      if !possibleOverwrite {
        if !e.coin.IsSpent() {
          return true;
        }
        markFresh := !e.isDirty;
      }
      cacheCoins := cacheCoins[op := Entry(coin, true, e.isFresh || markFresh)];
      cachedCoinsUsage := cachedCoinsUsage + coin.DynamicMemoryUsage();
      return false;
    }

    method AddCoin(op: OutPoint, coin: Coin, possibleOverwrite: bool, genesisActivationHeight: nat)
      requires Linked() && Valid() && !coin.IsSpent()
      requires OverwriteAllowed(Abs(), op, possibleOverwrite)
      modifies this
      ensures Valid() && Abs().base == old(Abs().base)
      ensures UnspentSet() == if Unspendable(coin, genesisActivationHeight) then old(UnspentSet()) else old(UnspentSet())[op := coin]
    {
      AddCoinAdds(Abs(), op, coin, possibleOverwrite, genesisActivationHeight);
      var thrown := TryAddCoin(op, coin, possibleOverwrite, genesisActivationHeight);
    }

    method Spend(op: OutPoint) returns (found: Option<Coin>)
      requires Linked()
      modifies repr
      ensures (Abs(), found.Some?) == Coins.SpendCoin(old(Abs()), op)
      ensures found == Fetch(old(Abs()), op).1
    {
      found := GetCoin(op);
      if found.Some? && op in cacheCoins {
        cachedCoinsUsage := cachedCoinsUsage - cacheCoins[op].coin.DynamicMemoryUsage();
        if cacheCoins[op].isFresh {
          cacheCoins := cacheCoins - {op};
        } else {
          cacheCoins := cacheCoins[op := Entry(EMPTY_COIN, true, false)];
        }
      }
    }

    method SpendCoin(op: OutPoint) returns (ok: bool, moveout: Coin)
      requires Linked() && Valid()
      modifies repr
      ensures Valid() && UnspentSet() == old(UnspentSet()) - {op}
      ensures Layers(Abs().base) == old(Layers(Abs().base))
      ensures op in old(UnspentSet()) ==> ok && moveout == old(UnspentSet()[op])
    {
      FetchIsTransparent(Abs(), op);
      SpendCoinRemoves(Abs(), op);
      var found := Spend(op);
      ok := found.Some?;
      moveout := if ok then found.value else EMPTY_COIN;
    }

    method Uncache(op: OutPoint)
      requires Linked() && Valid()
      modifies this
      ensures Abs() == Coins.Uncache(old(Abs()), op)
      ensures Valid() && Layers(Abs()) == old(Layers(Abs()))
    {
      ghost var below := Abs().base;
      UncacheIsTransparent(Abs(), op);
      if op in cacheCoins && !cacheCoins[op].isDirty && !cacheCoins[op].isFresh {
        cachedCoinsUsage := cachedCoinsUsage - cacheCoins[op].coin.DynamicMemoryUsage();
        cacheCoins := cacheCoins - {op};
      }
      assert Abs() == Cache(cacheCoins, cachedCoinsUsage, below);
    }

    method BatchWrite(mapCoins: CoinsMap) returns (thrown: bool)
      requires Linked()
      modifies this
      ensures var r := Coins.BatchWrite(old(Abs()), mapCoins);
              thrown == r.None? && (!thrown ==> Abs() == r.value)
    {
      thrown := MergeEntries(mapCoins);
    }

    // Entries are visited in an arbitrary order, as an unordered_map gives them.
    method MergeEntries(mapCoins: CoinsMap) returns (thrown: bool)
      modifies this
      ensures thrown <==> AnyMisapplied(old(cacheCoins), mapCoins)
      ensures !thrown ==> cacheCoins == MergeAll(old(cacheCoins), mapCoins)
      ensures cachedCoinsUsage - TotalUsage(cacheCoins) == old(cachedCoinsUsage - TotalUsage(cacheCoins))
    {
      var todo := mapCoins;
      ghost var was, done := cacheCoins, map[];
      MergingStarts(was, mapCoins);
      while todo != map[]
        invariant Merging(was, done, todo, mapCoins, cacheCoins)
        invariant cachedCoinsUsage - TotalUsage(cacheCoins) == old(cachedCoinsUsage - TotalUsage(cacheCoins))
        decreases todo.Keys
      {
        var op :| op in todo;
        var e := todo[op];
        ghost var now := cacheCoins;
        var failed := MergeOne(op, e);
        if failed {
          MergingFails(was, done, todo, mapCoins, now, op);
          return true;
        }
        MergingStep(was, done, todo, mapCoins, now, op, cacheCoins);
        done := done[op := e];
        todo := todo - {op};
      }
      MergingEnds(was, done, mapCoins, cacheCoins);
      return false;
    }

    // One round of the BatchWrite loop.
    method MergeOne(op: OutPoint, child: Entry) returns (thrown: bool)
      modifies this
      ensures thrown <==> Misapplied(Lookup(old(cacheCoins), op), child)
      ensures !thrown ==> Lookup(cacheCoins, op) == MergeEntry(Lookup(old(cacheCoins), op), child)
      ensures forall k | k != op :: Lookup(cacheCoins, k) == Lookup(old(cacheCoins), k)
      ensures cachedCoinsUsage - TotalUsage(cacheCoins) == old(cachedCoinsUsage - TotalUsage(cacheCoins))
    {
      TotalUsageDrop(cacheCoins, op);
      TotalUsagePut(cacheCoins, op, Entry(child.coin, true, child.isFresh));
      if !child.isDirty {
        return false;
      }
      if op !in cacheCoins {
        if !(child.isFresh && child.coin.IsSpent()) {
          cacheCoins := cacheCoins[op := Entry(child.coin, true, child.isFresh)];
          cachedCoinsUsage := cachedCoinsUsage + child.coin.DynamicMemoryUsage();
        }
      } else {
        var ours := cacheCoins[op];
        if child.isFresh && !ours.coin.IsSpent() {
          return true;
        }
        if ours.isFresh && child.coin.IsSpent() {
          cachedCoinsUsage := cachedCoinsUsage - ours.coin.DynamicMemoryUsage();
          cacheCoins := cacheCoins - {op};
        } else {
          TotalUsagePut(cacheCoins, op, Entry(child.coin, true, ours.isFresh));
          cachedCoinsUsage := cachedCoinsUsage - ours.coin.DynamicMemoryUsage();
          cacheCoins := cacheCoins[op := Entry(child.coin, true, ours.isFresh)];
          cachedCoinsUsage := cachedCoinsUsage + child.coin.DynamicMemoryUsage();
        }
      }
      return false;
    }

    method BaseBatchWrite() returns (thrown: bool)
      requires Linked()
      modifies repr - {this}
      ensures var r := Coins.BatchWrite(old(Abs().base), cacheCoins);
              thrown == r.None? && (!thrown ==> Abs().base == r.value)
    {
      match base
      case OnDisk(db) => db.BatchWrite(cacheCoins); thrown := false;
      case OnCache(c) => thrown := c.BatchWrite(cacheCoins);
    }

    // The base takes over exactly this cache's unspent set; no exception is raised.
    method Flush()
      requires Linked() && Valid()
      modifies repr
      ensures Some(Abs()) == Coins.Flush(old(Abs()))
      ensures Valid() && UnspentSet() == old(UnspentSet()) && Unspent(Abs().base) == UnspentSet()
      ensures cacheCoins == map[] && cachedCoinsUsage == 0
    {
      FlushMovesDown(Abs());
      var thrown := BaseBatchWrite();
      cacheCoins := map[];
      cachedCoinsUsage := 0;
    }

    method HaveInputs(isCoinBase: bool, prevouts: seq<OutPoint>) returns (have: bool)
      requires Linked() && Valid()
      modifies repr
      ensures Valid() && Layers(Abs()) == old(Layers(Abs())) && UnspentSet() == old(UnspentSet())
      ensures have <==> isCoinBase || forall op | op in prevouts :: op in UnspentSet()
    {
      if isCoinBase {
        return true;
      }
      for i := 0 to |prevouts|
        invariant Valid() && Layers(Abs()) == old(Layers(Abs())) && UnspentSet() == old(UnspentSet())
        invariant forall j | 0 <= j < i :: prevouts[j] in UnspentSet()
      {
        var h := HaveCoin(prevouts[i]);
        if !h {
          return false;
        }
      }
      return true;
    }
  }

  /******* AddCoins *******/

  // The ledger after the first n outputs of a transaction are added.
  function OutputsAdded(l: Ledger, txid: nat, vout: seq<TxOut>, n: nat, nHeight: nat, coinBase: bool,
                        genesis: nat): Ledger
    requires n <= |vout|
  {
    if n == 0 then l
    else
      var below := OutputsAdded(l, txid, vout, n - 1, nHeight, coinBase, genesis);
      var coin := Coin(vout[n - 1], nHeight, coinBase);
      if Unspendable(coin, genesis) then below else below[OutPoint(txid, n - 1) := coin]
  }

  lemma {:induction false} OutputsAddedAt(l: Ledger, txid: nat, vout: seq<TxOut>, n: nat, nHeight: nat,
                                          coinBase: bool, genesis: nat, op: OutPoint)
    requires n <= |vout|
    ensures var r := OutputsAdded(l, txid, vout, n, nHeight, coinBase, genesis);
            if op.txid == txid && op.n < n && !Unspendable(Coin(vout[op.n], nHeight, coinBase), genesis)
            then op in r && r[op] == Coin(vout[op.n], nHeight, coinBase)
            else (op in r <==> op in l) && (op in l ==> r[op] == l[op])
  {
    if n > 0 {
      OutputsAddedAt(l, txid, vout, n - 1, nHeight, coinBase, genesis, op);
    }
  }

  // With `check` the overwrite flag is looked up, so any transaction may be
  // added; without it the caller vouches that only a coinbase overwrites.
  method AddCoins(cache: CoinsViewCache, txid: nat, vout: seq<TxOut>, isCoinBase: bool, nHeight: nat,
                  genesis: nat, check: bool)
    requires cache.Linked() && cache.Valid()
    requires forall i | 0 <= i < |vout| :: !vout[i].IsNull()
    requires check || isCoinBase || forall i | 0 <= i < |vout| :: OutPoint(txid, i) !in cache.UnspentSet()
    modifies cache.repr
    ensures cache.Valid()
    ensures cache.UnspentSet() == OutputsAdded(old(cache.UnspentSet()), txid, vout, |vout|, nHeight, isCoinBase, genesis)
  {
    ghost var l := cache.UnspentSet();
    for i := 0 to |vout|
      invariant cache.Valid()
      invariant cache.UnspentSet() == OutputsAdded(l, txid, vout, i, nHeight, isCoinBase, genesis)
    {
      var op := OutPoint(txid, i);
      OutputsAddedAt(l, txid, vout, i, nHeight, isCoinBase, genesis, op);
      var overwrite := isCoinBase;
      if check {
        overwrite := cache.HaveCoin(op);
      }
      cache.AddCoin(op, Coin(vout[i], nHeight, isCoinBase), overwrite, genesis);
    }
  }
}
