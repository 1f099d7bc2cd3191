// What reading any stream leaves of an address manager: entries and slots are right
// whatever is read, the index of addresses is right just where no address comes twice.

module AddrManLoading {
  import opened AddrMan

  // Reading one more entry, as both loops over entries do it.
  function Append(x: Man, id: int, i: Info): Man {
    x.(info := x.info[id := i.(nRandomPos := |x.random|)], addr := x.addr[i.service.ip := id], random := x.random + [id])
  }

  // The id -1, which only a negative count leads to, does not show in the table.
  function EnterTried(x: Man, slot: Slot, i: Info): Man {
    Append(x, x.nIdCount, i.(fInTried := true)).(
      triedT := if x.nIdCount == -1 then x.triedT else x.triedT[slot := x.nIdCount], nIdCount := x.nIdCount + 1)
  }

  /******* The invariant of reading *******/

  // mapAddr leads to entries with the address, if not to all of them.
  ghost predicate AddrBack(info: map<int, Info>, addr: map<NetAddr, int>) {
    forall a | a in addr :: addr[a] in info && info[addr[a]].service.ip == a
  }

  ghost predicate AddrCovers(info: map<int, Info>, addr: map<NetAddr, int>) {
    forall id | id in info :: info[id].service.ip in addr
  }

  // Everything but that each entry is found under its address.
  ghost predicate Sane(h: Hashes, x: Man) {
    RandomOk(x.info, x.random) && AddrBack(x.info, x.addr) && Tabled(h, x)
  }

  // The entries read are numbered from 0 to n, those below w being new and the others tried.
  ghost predicate NumberedTo(info: map<int, Info>, w: int, n: int) {
    && (forall id :: id in info <==> 0 <= id < n)
    && (forall id | 0 <= id < n :: info[id].fInTried <==> id >= w)
  }

  ghost predicate Loading(h: Hashes, x: Man, w: int, n: int) {
    Sane(h, x) && AddrCovers(x.info, x.addr) && NumberedTo(x.info, w, n)
  }

  lemma NothingLoaded(h: Hashes, w: nat)
    ensures Loading(h, EMPTY, w, 0)
  {
  }

  lemma AppendIsCreate(x: Man, n: nat, i: Info)
    ensures Append(x, n, i) == Create(x.(nIdCount := n), i).(nIdCount := x.nIdCount)
  {
  }

  lemma AppendAddresses(x: Man, n: int, i: Info)
    requires AddrBack(x.info, x.addr) && AddrCovers(x.info, x.addr) && n !in x.info
    ensures AddrBack(Append(x, n, i).info, Append(x, n, i).addr) && AddrCovers(Append(x, n, i).info, Append(x, n, i).addr)
  {
  }

  lemma TabledSame(h: Hashes, x: Man, x': Man)
    requires Tabled(h, x) && x'.info == x.info && x'.newT == x.newT && x'.triedT == x.triedT
    ensures Tabled(h, x')
  {
  }

  // A new entry is read.
  lemma AppendSane(h: Hashes, x: Man, n: nat, i: Info)
    requires Sane(h, x) && AddrCovers(x.info, x.addr) && n !in x.info && i.nRefCount == 0 && !i.fInTried
    ensures Sane(h, Append(x, n, i)) && AddrCovers(Append(x, n, i).info, Append(x, n, i).addr)
  {
    var y := x.(nIdCount := n);
    TabledSame(h, x, y);
    CreateTabled(h, y, i);
    CreateRandom(y, i);
    AppendIsCreate(x, n, i);
    TabledSame(h, Create(y, i), Append(x, n, i));
    AppendAddresses(x, n, i);
  }

  lemma AppendLoads(h: Hashes, x: Man, w: int, n: nat, i: Info)
    requires Loading(h, x, w, n) && n < w && i.nRefCount == 0 && !i.fInTried
    ensures Loading(h, Append(x, n, i), w, n + 1)
  {
    AppendSane(h, x, n, i);
    NumberedNext(x.info, w, n, i.(nRandomPos := |x.random|));
  }

  // A slot is given to a new entry.
  lemma RecountSame(info: map<int, Info>, addr: map<NetAddr, int>, random: seq<int>, id: int, c: int)
    requires RandomOk(info, random) && AddrBack(info, addr) && AddrCovers(info, addr) && id in info
    ensures var info' := info[id := info[id].(nRefCount := c)];
            RandomOk(info', random) && AddrBack(info', addr) && AddrCovers(info', addr)
  {
    var info' := info[id := info[id].(nRefCount := c)];
    assert forall k | k in info :: info'[k].service == info[k].service && info'[k].nRandomPos == info[k].nRandomPos;
  }

  lemma RecountNumbers(info: map<int, Info>, id: int, c: int, w: int, n: int)
    requires NumberedTo(info, w, n) && id in info
    ensures NumberedTo(info[id := info[id].(nRefCount := c)], w, n)
  {
  }

  lemma ReferLoads(h: Hashes, x: Man, w: int, n: int, s: Slot, id: int)
    requires Loading(h, x, w, n) && s !in x.newT
    requires NewSlotOk(h, x.info, s, id) && x.info[id].nRefCount < NEW_BUCKETS_PER_ADDRESS
    ensures Loading(h, Refer(x, s, id), w, n)
  {
    var c, x' := x.info[id].nRefCount + 1, Refer(x, s, id);
    assert x'.info == x.info[id := x.info[id].(nRefCount := c)] && x'.addr == x.addr && x'.random == x.random;
    RecountSame(x.info, x.addr, x.random, id, c);
    RecountNumbers(x.info, id, c, w, n);
    ReferTabled(h, x, s, id);
    LoadingFrom(h, x', w, n);
  }

  lemma LoadingFrom(h: Hashes, x: Man, w: int, n: int)
    requires RandomOk(x.info, x.random) && AddrBack(x.info, x.addr) && AddrCovers(x.info, x.addr)
    requires NumberedTo(x.info, w, n)
    ensures !Tabled(h, x) || Loading(h, x, w, n)
  {
  }

  // A tried entry is read and finds its slot free.
  lemma EnterTriedIs(x: Man, slot: Slot, i: Info)
    requires !i.fInTried && x.nIdCount >= 0
    ensures EnterTried(x, slot, i) == Promote(Create(x, i), slot, x.nIdCount).(nTried := x.nTried)
  {
  }

  lemma EnterTriedSane(h: Hashes, x: Man, i: Info)
    requires Sane(h, x) && AddrCovers(x.info, x.addr) && x.nIdCount >= 0 && x.nIdCount !in x.info && i.nRefCount == 0 && !i.fInTried
    requires TriedSlot(h, i.service) !in x.triedT
    ensures var x' := EnterTried(x, TriedSlot(h, i.service), i); Sane(h, x') && AddrCovers(x'.info, x'.addr)
  {
    var slot, id := TriedSlot(h, i.service), x.nIdCount;
    var y := Create(x, i);
    CreateTabled(h, x, i);
    CreateRandom(x, i);
    PromoteTabled(h, y, slot, id);
    EnterTriedIs(x, slot, i);
    TabledSame(h, Promote(y, slot, id), EnterTried(x, slot, i));
    AppendAddresses(x, id, i.(fInTried := true));
    assert forall k | k in y.info :: Promote(y, slot, id).info[k].nRandomPos == y.info[k].nRandomPos;
  }

  lemma EnterTriedLoads(h: Hashes, x: Man, w: int, i: Info)
    requires Loading(h, x, w, x.nIdCount) && 0 <= w <= x.nIdCount && i.nRefCount == 0 && !i.fInTried
    requires TriedSlot(h, i.service) !in x.triedT
    ensures Loading(h, EnterTried(x, TriedSlot(h, i.service), i), w, x.nIdCount + 1)
  {
    EnterTriedSane(h, x, i);
    NumberedNext(x.info, w, x.nIdCount, i.(fInTried := true, nRandomPos := |x.random|));
  }

  lemma NumberedNext(info: map<int, Info>, w: int, n: nat, i: Info)
    requires NumberedTo(info, w, n) && (i.fInTried <==> n >= w)
    ensures NumberedTo(info[n := i], w, n + 1)
  {
  }

  /******* Pruning *******/

  // Whether the final loop keeps an entry.
  predicate Stays(i: Info) { i.fInTried || i.nRefCount != 0 }

  lemma DeletePossibleSane(h: Hashes, x: Man, id: int)
    requires Sane(h, x) && id in x.info && !x.info[id].fInTried && x.info[id].nRefCount == 0
    ensures CanDelete(x, id)
  {
    assert x.random[|x.random| - 1] in x.info;
  }

  lemma DropLastRandom(x: Man, id: int)
    requires RandomOk(x.info, x.random) && id in x.info && x.info[id].nRandomPos == |x.random| - 1
    ensures RandomOk(DropLast(x, id).info, DropLast(x, id).random)
  {
    var x' := DropLast(x, id);
    forall k | 0 <= k < |x'.random| ensures x'.random[k] in x'.info && x'.info[x'.random[k]].nRandomPos == k {
      assert x.random[k] in x.info && x.info[x.random[k]].nRandomPos == k;
    }
  }

  lemma DropLastAddr(x: Man, id: int)
    requires AddrBack(x.info, x.addr) && id in x.info && |x.random| > 0
    ensures AddrBack(DropLast(x, id).info, DropLast(x, id).addr)
  {
  }

  lemma AddrBackSame(info: map<int, Info>, info': map<int, Info>, addr: map<NetAddr, int>)
    requires AddrBack(info, addr) && SameForTables(info, info')
    ensures AddrBack(info', addr)
  {
    forall a | a in addr ensures addr[a] in info' && info'[addr[a]].service.ip == a {
      var id := addr[a];
      assert id in info;
      assert SameEntry(info[id], info'[id]);
    }
  }

  lemma SwapSane(h: Hashes, x: Man, p: int, q: int)
    requires Sane(h, x) && 0 <= p < |x.random| && 0 <= q < |x.random|
    ensures CanSwap(x, p, q) && Sane(h, SwapRandom(x, p, q))
  {
    SwapRandomOk(x, p, q);
    SwapSame(x, p, q);
    var x' := SwapRandom(x, p, q);
    TablesSame(h, x, x');
    AddrBackSame(x.info, x'.info, x.addr);
  }

  lemma DeleteSane(h: Hashes, x: Man, id: int)
    requires Sane(h, x) && CanDelete(x, id)
    ensures Sane(h, Delete(x, id))
  {
    var p, q := x.info[id].nRandomPos, |x.random| - 1;
    assert x.random[p] == id;
    SwapSane(h, x, p, q);
    SwappedAt(x, p, q, id);
    var x1 := SwapRandom(x, p, q);
    assert x1.info[id].nRandomPos == q;
    DropLastRandom(x1, id);
    DropLastAddr(x1, id);
    DropLastTabled(h, x1, id);
    DeleteIs(x, id);
  }

  // An entry below n with the address a has been pruned.
  ghost predicate Erased(info: map<int, Info>, n: int, a: NetAddr) {
    exists k :: k in info && k < n && !Stays(info[k]) && info[k].service.ip == a
  }

  // The entries below n that do not stay are gone, and with them what mapAddr has under
  // their addresses; all else is as it was, but for places in vRandom.
  ghost predicate EntriesPruned(info: map<int, Info>, info': map<int, Info>, n: int) {
    && (forall k :: k in info' <==> k in info && (k >= n || Stays(info[k])))
    && (forall k | k in info' :: SameEntry(info[k], info'[k]))
  }

  ghost predicate AddrPruned(info: map<int, Info>, addr: map<NetAddr, int>, addr': map<NetAddr, int>, n: int) {
    && (forall a :: a in addr' <==> a in addr && !Erased(info, n, a))
    && (forall a | a in addr' :: addr'[a] == addr[a])
  }

  ghost predicate Pruned(x: Man, y: Man, n: int) {
    && EntriesPruned(x.info, y.info, n) && AddrPruned(x.info, x.addr, y.addr, n)
    && y.newT == x.newT && y.triedT == x.triedT && y.nTried == x.nTried && y.nIdCount == x.nIdCount
  }

  lemma NothingPruned(x: Man)
    requires forall id | id in x.info :: id >= 0
    ensures Pruned(x, x, 0)
  {
  }

  lemma ErasedNext(info: map<int, Info>, n: int, a: NetAddr)
    ensures Erased(info, n + 1, a) <==> Erased(info, n, a) || (n in info && !Stays(info[n]) && info[n].service.ip == a)
  {
    if Erased(info, n, a) {
      var k :| k in info && k < n && !Stays(info[k]) && info[k].service.ip == a;
      assert k < n + 1;
    }
    if n in info && !Stays(info[n]) && info[n].service.ip == a {
      assert n < n + 1;
    }
  }

  lemma KeptNext(x: Man, y: Man, n: int)
    requires Pruned(x, y, n) && (n in x.info ==> Stays(x.info[n]))
    ensures Pruned(x, y, n + 1)
  {
    forall a ensures Erased(x.info, n + 1, a) <==> Erased(x.info, n, a) { ErasedNext(x.info, n, a); }
  }

  lemma DeletedNext(x: Man, y: Man, n: int, y': Man)
    requires Pruned(x, y, n) && n in x.info && !Stays(x.info[n]) && n in y.info && Deleted(y, n, y')
    ensures Pruned(x, y', n + 1)
  {
    assert SameEntry(x.info[n], y.info[n]);
    forall k | k in y'.info ensures SameEntry(x.info[k], y'.info[k]) {
      assert k in y.info - {n} && SameEntry((y.info - {n})[k], y'.info[k]) && SameEntry(x.info[k], y.info[k]);
    }
    forall a ensures a in y'.addr <==> a in x.addr && !Erased(x.info, n + 1, a) { ErasedNext(x.info, n, a); }
  }

  lemma PrunedCounts(y: Man, n: int, y': Man)
    requires n in y.info && !y.info[n].fInTried && Deleted(y, n, y') && y.nNew == |NewIds(y.info)|
    ensures y'.nNew == |NewIds(y'.info)| && TriedIds(y'.info) == TriedIds(y.info)
  {
    assert n in NewIds(y.info) && n !in TriedIds(y.info);
  }

  /******* What is loaded *******/

  // No other entry that was read has the address of one that stays.
  ghost predicate Unshared(info: map<int, Info>) {
    forall j, k | j in info && k in info && j != k && Stays(info[j]) :: info[j].service.ip != info[k].service.ip
  }

  lemma PrunedReferenced(x: Man, y: Man, n: int)
    requires Pruned(x, y, n) && forall id | id in x.info :: id < n
    requires forall id | id in x.info :: x.info[id].nRefCount >= 0
    ensures Referenced(y.info, {})
  {
    forall id | id in y.info ensures y.info[id].fInTried || y.info[id].nRefCount > 0 {
      assert SameEntry(x.info[id], y.info[id]) && x.info[id].nRefCount >= 0;
    }
  }

  // An entry that stays is found under its address if and only if it shares it with none.
  lemma UnsharedFound(x: Man, y: Man, n: int, j: int)
    requires Pruned(x, y, n) && AddrBack(x.info, x.addr) && AddrCovers(x.info, x.addr) && j in y.info && Unshared(x.info)
    requires forall id | id in x.info :: id < n
    ensures y.info[j].service.ip in y.addr && y.addr[y.info[j].service.ip] == j
  {
    var a := x.info[j].service.ip;
    assert SameEntry(x.info[j], y.info[j]);
    assert x.addr[a] in x.info && x.info[x.addr[a]].service.ip == a;
    assert !Erased(x.info, n, a);
  }

  lemma FoundUnshared(x: Man, y: Man, n: int, j: int, k: int)
    requires Pruned(x, y, n) && j in x.info && k in x.info && j != k && Stays(x.info[j])
    requires x.info[j].service.ip == x.info[k].service.ip && k < n && j < n
    ensures !AddrOk(y.info, y.addr, y.nIdCount)
  {
    assert j in y.info && SameEntry(x.info[j], y.info[j]);
    if Stays(x.info[k]) {
      assert k in y.info && SameEntry(x.info[k], y.info[k]);
    } else {
      assert Erased(x.info, n, x.info[k].service.ip);
    }
  }

  lemma UnsharedAddr(x: Man, y: Man)
    requires Pruned(x, y, x.nIdCount) && AddrBack(x.info, x.addr) && AddrCovers(x.info, x.addr) && AddrBack(y.info, y.addr)
    requires x.nIdCount >= 0 && (forall id | id in x.info :: 0 <= id < x.nIdCount) && Unshared(x.info)
    ensures AddrOk(y.info, y.addr, y.nIdCount)
  {
    forall j | j in y.info ensures 0 <= j < y.nIdCount && y.info[j].service.ip in y.addr && y.addr[y.info[j].service.ip] == j {
      UnsharedFound(x, y, x.nIdCount, j);
    }
  }

  lemma AddrUnshared(x: Man, y: Man)
    requires Pruned(x, y, x.nIdCount) && AddrOk(y.info, y.addr, y.nIdCount)
    requires forall id | id in x.info :: 0 <= id < x.nIdCount
    ensures Unshared(x.info)
  {
    forall j, k | j in x.info && k in x.info && j != k && Stays(x.info[j])
      ensures x.info[j].service.ip != x.info[k].service.ip
    {
      if x.info[j].service.ip == x.info[k].service.ip { FoundUnshared(x, y, x.nIdCount, j, k); }
    }
  }

  // What is loaded is consistent if and only if no entry that stays shares its address and
  // the tried entries are counted.
  lemma LoadedConsistentIff(h: Hashes, x: Man, y: Man)
    requires Pruned(x, y, x.nIdCount) && AddrBack(x.info, x.addr) && AddrCovers(x.info, x.addr)
    requires x.nIdCount >= 0 && forall id | id in x.info :: 0 <= id < x.nIdCount
    requires Sane(h, y) && y.nNew == |NewIds(y.info)| && Referenced(y.info, {})
    ensures Consistent(h, y) <==> Unshared(x.info) && y.nTried == |TriedIds(y.info)|
  {
    if Unshared(x.info) { UnsharedAddr(x, y); }
    if Consistent(h, y) { AddrUnshared(x, y); }
  }

  /******* Counting *******/

  ghost predicate Increasing(s: seq<int>) {
    forall j, k | 0 <= j < k < |s| :: s[j] < s[k]
  }

  ghost function Elements(s: seq<int>): set<int> {
    set x | x in s
  }

  lemma {:induction false} SetOfSeq(s: seq<int>)
    requires Increasing(s)
    ensures |Elements(s)| == |s|
  {
    if s == [] {
      assert Elements(s) == {};
    } else {
      var last, rest := s[|s| - 1], s[..|s| - 1];
      SetOfSeq(rest);
      assert s == rest + [last];
      assert Elements(s) == Elements(rest) + {last};
      assert last !in rest;
    }
  }

  function Range(a: int, b: int): (r: seq<int>)
    requires a <= b
    ensures Increasing(r) && |r| == b - a && forall k :: k in r <==> a <= k < b
    decreases b - a
  {
    if a == b then []
    else
      var rest := Range(a, b - 1);
      assert forall i | 0 <= i < |rest| :: rest[i] in rest;
      rest + [b - 1]
  }

  lemma NumberedCounts(info: map<int, Info>, w: nat, n: nat)
    requires NumberedTo(info, w, n) && w <= n
    ensures |NewIds(info)| == w && |TriedIds(info)| == n - w
  {
    var news, trieds := Range(0, w), Range(w, n);
    SetOfSeq(news);
    SetOfSeq(trieds);
    forall k
      ensures k in NewIds(info) <==> k in Elements(news)
      ensures k in TriedIds(info) <==> k in Elements(trieds)
    {
      assert (k in news <==> k in Elements(news)) && (k in trieds <==> k in Elements(trieds));
    }
    assert NewIds(info) == Elements(news) && TriedIds(info) == Elements(trieds);
  }
}
