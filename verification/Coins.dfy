// The UTXO cache stack of src/coins.h and src/coins.cpp, on values.
//
// A coins view is either the database at the bottom or a write-back cache over
// another view.  The unspent set a view stands for is a plain map, `Unspent`;
// every cache operation is shown to act on that map and on nothing else.

module Coins {
  import opened Options

  type Byte = b: int | 0 <= b < 256

  const OP_FALSE: Byte := 0x00
  const OP_RETURN: Byte := 0x6a
  const MAX_SCRIPT_SIZE_BEFORE_GENESIS := 10000

  datatype OutPoint = OutPoint(txid: nat, n: nat)

  datatype TxOut = TxOut(nValue: int, scriptPubKey: seq<Byte>) {
    // A null output is one whose value is -1.
    predicate IsNull() { nValue == -1 }
  }

  datatype Coin = Coin(out: TxOut, nHeight: nat, isCoinBase: bool) {
    predicate IsSpent() { out.IsNull() }

    // prevector<28> keeps short scripts inline; longer ones are one malloc block.
    function DynamicMemoryUsage(): nat {
      if |out.scriptPubKey| <= 28 then 0 else (|out.scriptPubKey| + 31) / 16 * 16
    }
  }

  const EMPTY_COIN := Coin(TxOut(-1, []), 0, false)

  predicate IsUnspendable(script: seq<Byte>, isGenesisEnabled: bool) {
    var falseReturn := |script| > 1 && script[0] == OP_FALSE && script[1] == OP_RETURN;
    if isGenesisEnabled then falseReturn
    else
      || (|script| > 0 && script[0] == OP_RETURN)
      || falseReturn
      || |script| > MAX_SCRIPT_SIZE_BEFORE_GENESIS
  }

  predicate Unspendable(coin: Coin, genesisActivationHeight: nat) {
    IsUnspendable(coin.out.scriptPubKey, coin.nHeight >= genesisActivationHeight)
  }

  // A cached coin with its two flag bits.
  datatype Entry = Entry(coin: Coin, isDirty: bool, isFresh: bool)

  type CoinsMap = map<OutPoint, Entry>
  type Ledger = map<OutPoint, Coin>

  datatype View =
    | Database(coins: Ledger)
    | Cache(entries: CoinsMap, usage: int, base: View)

  /******* What a view stands for *******/

  function Overlay(entries: CoinsMap, under: Ledger): Ledger {
    map op | op in entries.Keys + under.Keys && (op in entries ==> !entries[op].coin.IsSpent()) ::
      if op in entries then entries[op].coin else under[op]
  }

  function Unspent(v: View): Ledger {
    match v
    case Database(coins) => coins
    case Cache(entries, _, base) => Overlay(entries, Unspent(base))
  }

  // The unspent sets of every layer, the database first and the top layer last.
  function Layers(v: View): (r: seq<Ledger>)
    ensures |r| > 0 && r[|r| - 1] == Unspent(v)
  {
    match v
    case Database(coins) => [coins]
    case Cache(_, _, base) => Layers(base) + [Unspent(v)]
  }

  /******* The invariant between a cache and what lies under it *******/

  ghost function TotalUsage(m: CoinsMap): int {
    if m == map[] then 0
    else
      var op :| op in m;
      m[op].coin.DynamicMemoryUsage() + TotalUsage(m - {op})
  }

  ghost predicate EntryOk(e: Entry, op: OutPoint, under: Ledger) {
    && (e.isFresh ==> op !in under)
    && (!e.isDirty ==> if e.coin.IsSpent() then op !in under else op in under && under[op] == e.coin)
    && (e.isDirty && e.isFresh ==> !e.coin.IsSpent())
  }

  ghost predicate EntriesOk(entries: CoinsMap, under: Ledger) {
    forall op | op in entries :: EntryOk(entries[op], op, under)
  }

  ghost predicate Consistent(v: View) {
    match v
    case Database(coins) => forall op | op in coins :: !coins[op].IsSpent()
    case Cache(entries, usage, base) =>
      Consistent(base) && usage == TotalUsage(entries) && EntriesOk(entries, Unspent(base))
  }

  /******* Operations *******/

  // GetCoin and FetchCoinNL: a miss is answered by the base view, and every
  // cache on the way keeps a copy.
  function Fetch(v: View, op: OutPoint): (View, Option<Coin>) {
    match v
    case Database(coins) => (v, if op in coins then Some(coins[op]) else None)
    case Cache(entries, usage, base) =>
      if op in entries then (v, Some(entries[op].coin))
      else
        var (base', found) := Fetch(base, op);
        match found
        case None => (Cache(entries, usage, base'), None)
        case Some(coin) =>
          var e := Entry(coin, false, coin.IsSpent());
          (Cache(entries[op := e], usage + coin.DynamicMemoryUsage(), base'), found)
  }

  function HaveCoin(v: View, op: OutPoint): (View, bool) {
    var (v', found) := Fetch(v, op);
    (v', found.Some? && !found.value.IsSpent())
  }

  // AddCoin; None is the exception "Adding new coin that replaces non-pruned entry".
  function AddCoin(v: View, op: OutPoint, coin: Coin, possibleOverwrite: bool,
                   genesisActivationHeight: nat): Option<View>
    requires v.Cache? && !coin.IsSpent()
  {
    if Unspendable(coin, genesisActivationHeight) then Some(v)
    else
      var was := if op in v.entries then v.entries[op] else Entry(EMPTY_COIN, false, false);
      if !possibleOverwrite && !was.coin.IsSpent() then None
      else
        var markFresh := !possibleOverwrite && !was.isDirty;
        var usage := v.usage - was.coin.DynamicMemoryUsage() + coin.DynamicMemoryUsage();
        Some(Cache(v.entries[op := Entry(coin, true, was.isFresh || markFresh)], usage, v.base))
  }

  // SpendCoin; the second result is the returned flag.
  function SpendCoin(v: View, op: OutPoint): (View, bool)
    requires v.Cache?
  {
    var (v', _) := Fetch(v, op);
    if op !in v'.entries then (v', false)
    else
      var e := v'.entries[op];
      var usage := v'.usage - e.coin.DynamicMemoryUsage();
      if e.isFresh then (Cache(v'.entries - {op}, usage, v'.base), true)
      else (Cache(v'.entries[op := Entry(EMPTY_COIN, true, false)], usage, v'.base), true)
  }

  function Uncache(v: View, op: OutPoint): View
    requires v.Cache?
  {
    if op in v.entries && !v.entries[op].isDirty && !v.entries[op].isFresh then
      Cache(v.entries - {op}, v.usage - v.entries[op].coin.DynamicMemoryUsage(), v.base)
    else v
  }

  /******* BatchWrite, entry by entry *******/

  // The "FRESH flag misapplied" error of BatchWrite.
  predicate Misapplied(ours: Option<Entry>, child: Entry) {
    child.isDirty && child.isFresh && ours.Some? && !ours.value.coin.IsSpent()
  }

  // What becomes of our entry when a child's entry is written to it; None is erased.
  function MergeEntry(ours: Option<Entry>, child: Entry): Option<Entry> {
    if !child.isDirty then ours
    else
      match ours
      case None =>
        if child.isFresh && child.coin.IsSpent() then None
        else Some(Entry(child.coin, true, child.isFresh))
      case Some(e) =>
        if e.isFresh && child.coin.IsSpent() then None
        else Some(Entry(child.coin, true, e.isFresh))
  }

  function Lookup(m: CoinsMap, op: OutPoint): Option<Entry> {
    if op in m then Some(m[op]) else None
  }

  function Merged(ours: CoinsMap, child: CoinsMap, op: OutPoint): Option<Entry> {
    if op in child then MergeEntry(Lookup(ours, op), child[op]) else Lookup(ours, op)
  }

  function MergeAll(ours: CoinsMap, child: CoinsMap): CoinsMap {
    map op | op in ours.Keys + child.Keys && Merged(ours, child, op).Some? ::
      Merged(ours, child, op).value
  }

  // The database applies the DIRTY entries: a spent coin is erased, any other written.
  function WriteDirty(coins: Ledger, child: CoinsMap): Ledger {
    map op | op in coins.Keys + child.Keys &&
             (if op in child && child[op].isDirty then !child[op].coin.IsSpent() else op in coins) ::
      if op in child && child[op].isDirty then child[op].coin else coins[op]
  }

  ghost predicate AnyMisapplied(ours: CoinsMap, child: CoinsMap) {
    exists op :: op in child && Misapplied(Lookup(ours, op), child[op])
  }

  // BatchWrite; None is the exception.
  ghost function BatchWrite(v: View, child: CoinsMap): Option<View> {
    match v
    case Database(coins) => Some(Database(WriteDirty(coins, child)))
    case Cache(entries, usage, base) =>
      if AnyMisapplied(entries, child) then None
      else
        var entries' := MergeAll(entries, child);
        Some(Cache(entries', usage - TotalUsage(entries) + TotalUsage(entries'), base))
  }

  ghost function Flush(v: View): Option<View>
    requires v.Cache?
  {
    var written := BatchWrite(v.base, v.entries);
    if written.None? then None else Some(Cache(map[], 0, written.value))
  }

  /******* Memory accounting *******/

  lemma {:induction false} TotalUsageSplit(m: CoinsMap, op: OutPoint)
    requires op in m
    ensures TotalUsage(m) == m[op].coin.DynamicMemoryUsage() + TotalUsage(m - {op})
    decreases |m|
  {
    var pick :| pick in m && TotalUsage(m) == m[pick].coin.DynamicMemoryUsage() + TotalUsage(m - {pick});
    if pick != op {
      TotalUsageSplit(m - {pick}, op);
      TotalUsageSplit(m - {op}, pick);
      assert m - {pick} - {op} == m - {op} - {pick};
    }
  }

  lemma TotalUsagePut(m: CoinsMap, op: OutPoint, e: Entry)
    ensures TotalUsage(m[op := e]) == TotalUsage(m - {op}) + e.coin.DynamicMemoryUsage()
  {
    TotalUsageSplit(m[op := e], op);
    assert m[op := e] - {op} == m - {op};
  }

  lemma TotalUsageDrop(m: CoinsMap, op: OutPoint)
    ensures TotalUsage(m) == TotalUsage(m - {op}) + (if op in m then m[op].coin.DynamicMemoryUsage() else 0)
  {
    if op in m {
      TotalUsageSplit(m, op);
    } else {
      assert m - {op} == m;
    }
  }

  /******* Single-entry changes of a cache *******/

  lemma PutEntry(entries: CoinsMap, under: Ledger, op: OutPoint, e: Entry)
    requires EntriesOk(entries, under) && EntryOk(e, op, under)
    ensures EntriesOk(entries[op := e], under)
    ensures TotalUsage(entries[op := e]) ==
            TotalUsage(entries) + e.coin.DynamicMemoryUsage() -
            (if op in entries then entries[op].coin.DynamicMemoryUsage() else 0)
  {
    TotalUsagePut(entries, op, e);
    TotalUsageDrop(entries, op);
  }

  lemma PutOverlay(entries: CoinsMap, under: Ledger, op: OutPoint, e: Entry)
    ensures Overlay(entries[op := e], under) ==
            if e.coin.IsSpent() then Overlay(entries, under) - {op} else Overlay(entries, under)[op := e.coin]
  {
    var l, r := Overlay(entries[op := e], under), Overlay(entries, under);
    assert forall k | k != op :: k in l <==> k in r;
    assert forall k | k != op && k in l :: l[k] == r[k];
    assert op in l <==> !e.coin.IsSpent();
  }

  lemma EraseEntry(entries: CoinsMap, under: Ledger, op: OutPoint)
    requires EntriesOk(entries, under) && op in entries
    ensures EntriesOk(entries - {op}, under)
    ensures TotalUsage(entries - {op}) == TotalUsage(entries) - entries[op].coin.DynamicMemoryUsage()
  {
    TotalUsageDrop(entries, op);
  }

  lemma EraseOverlay(entries: CoinsMap, under: Ledger, op: OutPoint)
    ensures Overlay(entries - {op}, under) ==
            if op in under then Overlay(entries, under)[op := under[op]] else Overlay(entries, under) - {op}
  {
    var l, r := Overlay(entries - {op}, under), Overlay(entries, under);
    assert forall k | k != op :: k in l <==> k in r;
    assert forall k | k != op && k in l :: l[k] == r[k];
  }

  /******* Reads change no layer *******/

  lemma CopyUp(v: View, op: OutPoint, base': View, coin: Coin)
    requires v.Cache? && Consistent(v) && op !in v.entries
    requires Consistent(base') && Layers(base') == Layers(v.base) && Unspent(base') == Unspent(v.base)
    requires if coin.IsSpent() then op !in Unspent(base') else op in Unspent(base') && Unspent(base')[op] == coin
    ensures var e := Entry(coin, false, coin.IsSpent());
            var v' := Cache(v.entries[op := e], v.usage + coin.DynamicMemoryUsage(), base');
            Consistent(v') && Unspent(v') == Unspent(v) && Layers(v') == Layers(v)
  {
    var e := Entry(coin, false, coin.IsSpent());
    PutEntry(v.entries, Unspent(v.base), op, e);
    PutOverlay(v.entries, Unspent(v.base), op, e);
    assert Overlay(v.entries[op := e], Unspent(v.base)) == Unspent(v);
  }

  // A lookup answers from the unspent set, keeps the invariant and leaves the
  // unspent set of every layer as it was.
  lemma {:induction false} FetchIsTransparent(v: View, op: OutPoint)
    requires Consistent(v)
    ensures var (v', found) := Fetch(v, op);
            && Consistent(v') && Layers(v') == Layers(v) && Unspent(v') == Unspent(v)
            && (found.Some? && !found.value.IsSpent() <==> op in Unspent(v))
            && (op in Unspent(v) ==> found == Some(Unspent(v)[op]))
            && v'.Cache? == v.Cache?
            && (v'.Cache? ==> Layers(v'.base) == Layers(v.base))
            && (v'.Cache? && found.Some? ==> op in v'.entries && v'.entries[op].coin == found.value)
            && (v'.Cache? && found.None? ==> op !in v'.entries)
  {
    match v
    case Database(_) =>
    case Cache(entries, usage, base) =>
      if op !in entries {
        FetchIsTransparent(base, op);
        var (base', found) := Fetch(base, op);
        if found.Some? {
          CopyUp(v, op, base', found.value);
        }
      }
  }

  lemma UncacheIsTransparent(v: View, op: OutPoint)
    requires v.Cache? && Consistent(v)
    ensures Consistent(Uncache(v, op)) && Layers(Uncache(v, op)) == Layers(v)
  {
    if op in v.entries {
      EraseEntry(v.entries, Unspent(v.base), op);
      EraseOverlay(v.entries, Unspent(v.base), op);
      assert EntryOk(v.entries[op], op, Unspent(v.base));
      assert Unspent(Uncache(v, op)) == Unspent(v);
    }
  }

  /******* Writes change the top layer only *******/

  lemma SpendCoinRemoves(v: View, op: OutPoint)
    requires v.Cache? && Consistent(v)
    ensures var (v', ok) := SpendCoin(v, op);
            && v'.Cache? && Consistent(v')
            && Unspent(v') == Unspent(v) - {op}
            && Layers(v'.base) == Layers(v.base)
            && (op in Unspent(v) ==> ok)
  {
    FetchIsTransparent(v, op);
    var (v1, found) := Fetch(v, op);
    if op in v1.entries {
      var under := Unspent(v1.base);
      assert EntryOk(v1.entries[op], op, under);
      if v1.entries[op].isFresh {
        EraseEntry(v1.entries, under, op);
        EraseOverlay(v1.entries, under, op);
      } else {
        PutEntry(v1.entries, under, op, Entry(EMPTY_COIN, true, false));
        PutOverlay(v1.entries, under, op, Entry(EMPTY_COIN, true, false));
      }
    }
  }

  // What a caller promises by passing possible_overwrite = false.
  predicate OverwriteAllowed(v: View, op: OutPoint, possibleOverwrite: bool) {
    possibleOverwrite || op !in Unspent(v)
  }

  lemma AddCoinAdds(v: View, op: OutPoint, coin: Coin, overwrite: bool, genesis: nat)
    requires v.Cache? && Consistent(v) && !coin.IsSpent()
    requires OverwriteAllowed(v, op, overwrite)
    ensures var r := AddCoin(v, op, coin, overwrite, genesis);
            && r.Some? && r.value.Cache? && Consistent(r.value)
            && Unspent(r.value) == (if Unspendable(coin, genesis) then Unspent(v) else Unspent(v)[op := coin])
            && r.value.base == v.base
  {
    var r := AddCoin(v, op, coin, overwrite, genesis);
    if !Unspendable(coin, genesis) {
      assert r.Some?;
      var e := r.value.entries[op];
      assert op in v.entries ==> EntryOk(v.entries[op], op, Unspent(v.base));
      assert EntryOk(e, op, Unspent(v.base));
      PutEntry(v.entries, Unspent(v.base), op, e);
      PutOverlay(v.entries, Unspent(v.base), op, e);
    }
  }

  // Exactly when an AddCoin that returns keeps the invariant: the exception only
  // guards against a coin this cache already holds, so a caller that passes
  // possible_overwrite = false for a coin only the base holds gets a FRESH flag
  // that is wrong.
  lemma AddCoinKeepsConsistencyIff(v: View, op: OutPoint, coin: Coin, overwrite: bool, genesis: nat)
    requires v.Cache? && Consistent(v) && !coin.IsSpent() && !Unspendable(coin, genesis)
    ensures var r := AddCoin(v, op, coin, overwrite, genesis);
            && (r.None? <==> !overwrite && op in v.entries && op in Unspent(v))
            && (r.Some? ==> (Consistent(r.value) <==> OverwriteAllowed(v, op, overwrite)))
  {
    if OverwriteAllowed(v, op, overwrite) {
      AddCoinAdds(v, op, coin, overwrite, genesis);
    } else if AddCoin(v, op, coin, overwrite, genesis).Some? {
      var v' := AddCoin(v, op, coin, overwrite, genesis).value;
      assert !EntryOk(v'.entries[op], op, Unspent(v'.base));
    }
  }

  // The harm that wrong flag does: spending the new coin brings the old one back.
  lemma WrongOverwriteResurrects(op: OutPoint, was: Coin, coin: Coin, genesis: nat)
    requires !was.IsSpent() && !coin.IsSpent() && !Unspendable(coin, genesis)
    ensures var v := Cache(map[], 0, Database(map[op := was]));
            var r := AddCoin(v, op, coin, false, genesis);
            && Consistent(v) && r.Some?
            && Unspent(r.value) == map[op := coin]
            && Unspent(SpendCoin(r.value, op).0) == map[op := was]
  {
    var v := Cache(map[], 0, Database(map[op := was]));
    var v1 := AddCoin(v, op, coin, false, genesis).value;
    assert Unspent(v1) == map[op := coin];
    assert v1.entries - {op} == map[];
    assert Unspent(SpendCoin(v1, op).0) == map[op := was];
  }

  /******* Flush *******/

  lemma MergedEntryOk(entries: CoinsMap, under: Ledger, child: CoinsMap, op: OutPoint)
    requires EntriesOk(entries, under) && EntriesOk(child, Overlay(entries, under))
    ensures op in child ==> !Misapplied(Lookup(entries, op), child[op])
    ensures Merged(entries, child, op).Some? ==> EntryOk(Merged(entries, child, op).value, op, under)
    ensures var whole := Overlay(child, Overlay(entries, under));
            match Merged(entries, child, op)
            case None => if op in whole then op in under && whole[op] == under[op] else op !in under
            case Some(e) => if e.coin.IsSpent() then op !in whole else op in whole && whole[op] == e.coin
  {
    assert op in child ==> EntryOk(child[op], op, Overlay(entries, under));
    assert op in entries ==> EntryOk(entries[op], op, under);
  }

  lemma MergeAllOverlay(entries: CoinsMap, under: Ledger, child: CoinsMap)
    requires EntriesOk(entries, under) && EntriesOk(child, Overlay(entries, under))
    ensures EntriesOk(MergeAll(entries, child), under)
    ensures Overlay(MergeAll(entries, child), under) == Overlay(child, Overlay(entries, under))
    ensures !AnyMisapplied(entries, child)
  {
    var l, r := Overlay(MergeAll(entries, child), under), Overlay(child, Overlay(entries, under));
    forall op
      ensures op in l <==> op in r
      ensures op in l ==> l[op] == r[op]
      ensures op in MergeAll(entries, child) ==> EntryOk(MergeAll(entries, child)[op], op, under)
      ensures op in child ==> !Misapplied(Lookup(entries, op), child[op])
    {
      MergedEntryOk(entries, under, child, op);
    }
  }

  // Writing a consistent child into a consistent parent never trips the FRESH
  // check, leaves the parent consistent with the grandparent, and gives the
  // parent exactly the child's unspent set.
  lemma BatchWriteAdopts(v: View, child: CoinsMap)
    requires Consistent(v) && EntriesOk(child, Unspent(v))
    ensures var r := BatchWrite(v, child);
            && r.Some? && Consistent(r.value)
            && Unspent(r.value) == Overlay(child, Unspent(v))
            && r.value.Cache? == v.Cache?
            && (v.Cache? ==> r.value.base == v.base)
  {
    match v
    case Database(coins) =>
      var l, r := WriteDirty(coins, child), Overlay(child, coins);
      forall op
        ensures op in l <==> op in r
        ensures op in l ==> l[op] == r[op] && !l[op].IsSpent()
      {
        assert op in child ==> EntryOk(child[op], op, coins);
      }
    case Cache(entries, usage, base) =>
      MergeAllOverlay(entries, Unspent(base), child);
  }

  lemma FlushMovesDown(v: View)
    requires v.Cache? && Consistent(v)
    ensures var r := Flush(v);
            && r.Some? && Consistent(r.value) && r.value.Cache? && r.value.entries == map[]
            && Unspent(r.value) == Unspent(v)
            && Unspent(r.value.base) == Unspent(v)
            && (v.base.Cache? ==> r.value.base.Cache? && r.value.base.base == v.base.base)
            && r.value.base.Cache? == v.base.Cache?
  {
    BatchWriteAdopts(v.base, v.entries);
    var r := Flush(v).value;
    assert Overlay(map[], Unspent(r.base)) == Unspent(r.base);
  }

  /******* Whole runs *******/

  // A step of a run.  A level counts caches from the top, 0 being the top cache.
  datatype Step =
    | Get(getLevel: nat, getOp: OutPoint)
    | Drop(dropLevel: nat, dropOp: OutPoint)             // Uncache
    | Add(addOp: OutPoint, coin: Coin, overwrite: bool, genesis: nat)
    | Spend(spendOp: OutPoint)
    | FlushLevel(flushLevel: nat)
    | Push                                               // a new, empty cache on top
    | Pop                                                // the top cache is discarded

  function Depth(v: View): nat {
    if v.Database? then 0 else 1 + Depth(v.base)
  }

  ghost function Apply(v: View, s: Step): Option<View>
    decreases v
  {
    match s
    case Get(k, op) =>
      if k == 0 || v.Database? then Some(Fetch(v, op).0) else Below(v, Get(k - 1, op))
    case Drop(k, op) =>
      if v.Database? then Some(v) else if k == 0 then Some(Uncache(v, op)) else Below(v, Drop(k - 1, op))
    case Add(op, coin, overwrite, genesis) =>
      if v.Database? || coin.IsSpent() then None else AddCoin(v, op, coin, overwrite, genesis)
    case Spend(op) => if v.Database? then None else Some(SpendCoin(v, op).0)
    case FlushLevel(k) =>
      if v.Database? then None else if k == 0 then Flush(v) else Below(v, FlushLevel(k - 1))
    case Push => Some(Cache(map[], 0, v))
    case Pop => if v.Database? then None else Some(v.base)
  }

  ghost function Below(v: View, s: Step): Option<View>
    requires v.Cache?
    decreases v, 0
  {
    var r := Apply(v.base, s);
    if r.None? then None else Some(v.(base := r.value))
  }

  // The same step on plain ledgers, one per layer.
  predicate Allowed(ls: seq<Ledger>, s: Step)
    requires |ls| > 0
  {
    match s
    case Add(op, coin, overwrite, _) => |ls| > 1 && !coin.IsSpent() && (overwrite || op !in ls[|ls| - 1])
    case Spend(_) => |ls| > 1
    case FlushLevel(k) => k < |ls| - 1
    case Pop => |ls| > 1
    case _ => true
  }

  function LedgerStep(ls: seq<Ledger>, s: Step): (r: seq<Ledger>)
    requires |ls| > 0 && Allowed(ls, s)
    ensures |r| > 0
  {
    var top := |ls| - 1;
    match s
    case Add(op, coin, _, genesis) =>
      if Unspendable(coin, genesis) then ls else ls[top := ls[top][op := coin]]
    case Spend(op) => ls[top := ls[top] - {op}]
    case FlushLevel(k) => ls[top - k - 1 := ls[top - k]]
    case Push => ls + [ls[top]]
    case Pop => ls[..top]
    case _ => ls
  }

  ghost function Run(v: View, steps: seq<Step>): Option<View>
    decreases |steps|
  {
    if steps == [] then Some(v)
    else
      var r := Apply(v, steps[0]);
      if r.None? then None else Run(r.value, steps[1..])
  }

  predicate RunAllowed(ls: seq<Ledger>, steps: seq<Step>)
    requires |ls| > 0
    decreases |steps|
  {
    steps == [] || (Allowed(ls, steps[0]) && RunAllowed(LedgerStep(ls, steps[0]), steps[1..]))
  }

  function LedgerRun(ls: seq<Ledger>, steps: seq<Step>): seq<Ledger>
    requires |ls| > 0 && RunAllowed(ls, steps)
    decreases |steps|
  {
    if steps == [] then ls else LedgerRun(LedgerStep(ls, steps[0]), steps[1..])
  }

  lemma {:induction false} LayersLength(v: View)
    ensures |Layers(v)| == Depth(v) + 1
    decreases v
  {
    if v.Cache? { LayersLength(v.base); }
  }

  // A read, an uncache or a flush below a cache does not disturb that cache.
  lemma BaseReplaced(v: View, base': View)
    requires v.Cache? && Consistent(v) && Consistent(base') && Unspent(base') == Unspent(v.base)
    ensures Consistent(v.(base := base')) && Unspent(v.(base := base')) == Unspent(v)
    ensures Layers(v.(base := base')) == Layers(base') + [Unspent(v)]
  {
  }

  lemma {:induction false} QuietStep(v: View, s: Step)
    requires Consistent(v) && (s.Get? || s.Drop?)
    ensures Apply(v, s).Some? && Consistent(Apply(v, s).value) && Layers(Apply(v, s).value) == Layers(v)
    decreases v
  {
    var k := if s.Get? then s.getLevel else s.dropLevel;
    if v.Database? {
    } else if k == 0 {
      if s.Get? { FetchIsTransparent(v, s.getOp); } else { UncacheIsTransparent(v, s.dropOp); }
    } else {
      var s' := if s.Get? then Get(k - 1, s.getOp) else Drop(k - 1, s.dropOp);
      QuietStep(v.base, s');
      BaseReplaced(v, Apply(v.base, s').value);
    }
  }

  lemma FlushTop(v: View)
    requires v.Cache? && Consistent(v)
    ensures var r := Flush(v);
            && r.Some? && Consistent(r.value) && Unspent(r.value) == Unspent(v)
            && |Layers(v)| >= 2 && Layers(v)[|Layers(v)| - 1] == Unspent(v)
            && Layers(r.value) == Layers(v)[|Layers(v)| - 2 := Unspent(v)]
  {
    FlushMovesDown(v);
    var r := Flush(v).value;
    BelowSame(v.base, r.base);
    FlushedLayers(v, r);
  }

  lemma BelowSame(a: View, b: View)
    requires a.Cache? == b.Cache? && (a.Cache? ==> a.base == b.base)
    ensures LayersBelow(a) == LayersBelow(b)
  {
  }

  lemma FlushedLayers(v: View, r: View)
    requires v.Cache? && r.Cache? && Unspent(r) == Unspent(v) && Unspent(r.base) == Unspent(v)
    requires LayersBelow(r.base) == LayersBelow(v.base)
    ensures |Layers(v)| >= 2 && Layers(v)[|Layers(v)| - 1] == Unspent(v)
    ensures Layers(r) == Layers(v)[|Layers(v)| - 2 := Unspent(v)]
  {
    LayersTop(v.base);
    LayersTop(r.base);
    LayersTop(v);
    LayersTop(r);
    LastTwo(LayersBelow(v.base), Unspent(v.base), Unspent(v));
  }

  lemma LastTwo(ls: seq<Ledger>, x: Ledger, y: Ledger)
    ensures (ls + [x] + [y])[|ls| := y] == ls + [y] + [y]
  {
  }

  // The layers under the top one.
  ghost function LayersBelow(v: View): seq<Ledger> {
    if v.Database? then [] else Layers(v.base)
  }

  lemma LayersTop(v: View)
    ensures Layers(v) == LayersBelow(v) + [Unspent(v)]
  {
  }

  lemma {:induction false} FlushStep(v: View, k: nat)
    requires Consistent(v) && k < Depth(v)
    ensures |Layers(v)| == Depth(v) + 1
    ensures var r := Apply(v, FlushLevel(k));
            && r.Some? && Consistent(r.value) && Unspent(r.value) == Unspent(v)
            && Layers(r.value) == LedgerStep(Layers(v), FlushLevel(k))
    decreases v
  {
    LayersLength(v);
    if k == 0 {
      FlushTop(v);
    } else {
      LayersLength(v.base);
      FlushStep(v.base, k - 1);
      var b := Apply(v.base, FlushLevel(k - 1)).value;
      BaseReplaced(v, b);
      assert Layers(v) == Layers(v.base) + [Unspent(v)];
    }
  }

  lemma StepAgrees(v: View, s: Step)
    requires Consistent(v) && Allowed(Layers(v), s)
    ensures var r := Apply(v, s);
            r.Some? && Consistent(r.value) && Layers(r.value) == LedgerStep(Layers(v), s)
  {
    LayersLength(v);
    match s
    case Get(_, _) => QuietStep(v, s);
    case Drop(_, _) => QuietStep(v, s);
    case Add(op, coin, overwrite, genesis) => AddCoinAdds(v, op, coin, overwrite, genesis);
    case Spend(op) => SpendCoinRemoves(v, op);
    case FlushLevel(k) => FlushStep(v, k);
    case Push => assert Overlay(map[], Unspent(v)) == Unspent(v);
    case Pop =>
  }

  // The stack is its ledgers: however caches are pushed, filled, spent from,
  // read, trimmed, flushed at any level and discarded, no exception is thrown,
  // the invariant holds and each layer stands for the plain map its own adds,
  // spends and flushes build.
  lemma {:induction false} RunAgrees(v: View, steps: seq<Step>)
    requires Consistent(v) && RunAllowed(Layers(v), steps)
    ensures var r := Run(v, steps);
            && r.Some? && Consistent(r.value)
            && Layers(r.value) == LedgerRun(Layers(v), steps)
    decreases |steps|
  {
    if steps != [] {
      StepAgrees(v, steps[0]);
      RunAgrees(Apply(v, steps[0]).value, steps[1..]);
    }
  }
}
