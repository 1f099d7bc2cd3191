// The stochastic address manager of src/addrman.h and src/addrman.cpp, on values:
// its four indexes, the operations that change them and the invariant that
// Check_ tests.  Hashes are arbitrary functions.

module AddrMan {
  const TRIED_BUCKET_COUNT: nat := 256
  const NEW_BUCKET_COUNT: nat := 1024
  const BUCKET_SIZE: nat := 64
  const NEW_BUCKETS_PER_ADDRESS: nat := 8

  type NetAddr = nat

  // A CService: an address with its port.
  datatype Service = Service(ip: NetAddr, port: nat)

  datatype Info = Info(
    service: Service,
    source: NetAddr,
    nTime: int,
    nServices: bv64,
    nLastTry: int,
    nLastCountAttempt: int,
    nLastSuccess: int,
    nAttempts: int,
    nRefCount: int,
    fInTried: bool,
    nRandomPos: int)

  // The keyed hashes behind GetTriedBucket, GetNewBucket and GetBucketPosition.
  datatype Hashes = Hashes(
    triedBucket: Service -> nat,
    newBucket: (Service, NetAddr) -> nat,
    position: (Service, bool, nat) -> nat)

  function GetTriedBucket(h: Hashes, s: Service): nat { h.triedBucket(s) % TRIED_BUCKET_COUNT }
  function GetNewBucket(h: Hashes, s: Service, src: NetAddr): nat { h.newBucket(s, src) % NEW_BUCKET_COUNT }
  function GetBucketPosition(h: Hashes, s: Service, fNew: bool, bucket: nat): nat {
    h.position(s, fNew, bucket) % BUCKET_SIZE
  }

  datatype Slot = Slot(bucket: nat, pos: nat)

  // A bucket table; a slot that holds -1 is absent.
  type Table = map<Slot, int>

  function NewSlot(h: Hashes, s: Service, bucket: nat): Slot {
    Slot(bucket, GetBucketPosition(h, s, true, bucket))
  }

  function TriedSlot(h: Hashes, s: Service): Slot {
    var b := GetTriedBucket(h, s);
    Slot(b, GetBucketPosition(h, s, false, b))
  }

  datatype Man = Man(
    info: map<int, Info>,           // mapInfo
    addr: map<NetAddr, int>,        // mapAddr
    random: seq<int>,               // vRandom
    newT: Table,                    // vvNew
    triedT: Table,                  // vvTried
    nNew: int,
    nTried: int,
    nIdCount: int)

  const EMPTY := Man(map[], map[], [], map[], map[], 0, 0, 0)

  /******* The invariant *******/

  ghost function SlotsOf(t: Table, id: int): set<Slot> {
    set s | s in t && t[s] == id
  }

  ghost function NewIds(info: map<int, Info>): set<int> {
    set id | id in info && !info[id].fInTried
  }

  ghost function TriedIds(info: map<int, Info>): set<int> {
    set id | id in info && info[id].fInTried
  }

  // vRandom and nRandomPos are inverse, and so are mapAddr and mapInfo.
  ghost predicate RandomOk(info: map<int, Info>, random: seq<int>) {
    && (forall id | id in info :: 0 <= info[id].nRandomPos < |random| && random[info[id].nRandomPos] == id)
    && (forall k | 0 <= k < |random| :: random[k] in info && info[random[k]].nRandomPos == k)
  }

  ghost predicate AddrOk(info: map<int, Info>, addr: map<NetAddr, int>, nIdCount: int) {
    && 0 <= nIdCount
    && (forall id | id in info :: 0 <= id < nIdCount && info[id].service.ip in addr && addr[info[id].service.ip] == id)
    && (forall a | a in addr :: addr[a] in info && info[addr[a]].service.ip == a)
  }

  // Each new entry counts its slots; each tried entry has its computed slot and no other.
  ghost predicate EntryOk(h: Hashes, i: Info, id: int, newT: Table, triedT: Table) {
    && i.nRefCount == |SlotsOf(newT, id)|
    && (i.fInTried ==> i.nRefCount == 0 && TriedSlot(h, i.service) in triedT && triedT[TriedSlot(h, i.service)] == id)
    && (!i.fInTried ==> 0 <= i.nRefCount <= NEW_BUCKETS_PER_ADDRESS)
  }

  ghost predicate EntriesOk(h: Hashes, info: map<int, Info>, newT: Table, triedT: Table) {
    forall id | id in info :: EntryOk(h, info[id], id, newT, triedT)
  }

  // Each occupied slot holds a known entry of the right kind at its computed position.
  ghost predicate NewSlotOk(h: Hashes, info: map<int, Info>, s: Slot, id: int) {
    s.bucket < NEW_BUCKET_COUNT && id in info && !info[id].fInTried && s == NewSlot(h, info[id].service, s.bucket)
  }

  ghost predicate TriedSlotOk(h: Hashes, info: map<int, Info>, s: Slot, id: int) {
    id in info && info[id].fInTried && s == TriedSlot(h, info[id].service)
  }

  ghost predicate SlotsOk(h: Hashes, info: map<int, Info>, newT: Table, triedT: Table) {
    && (forall s | s in newT :: NewSlotOk(h, info, s, newT[s]))
    && (forall s | s in triedT :: TriedSlotOk(h, info, s, triedT[s]))
  }

  ghost predicate Indexed(m: Man) {
    RandomOk(m.info, m.random) && AddrOk(m.info, m.addr, m.nIdCount)
  }

  ghost predicate Tabled(h: Hashes, m: Man) {
    EntriesOk(h, m.info, m.newT, m.triedT) && SlotsOk(h, m.info, m.newT, m.triedT)
  }

  // Everything but the counts and that no new entry is unreferenced.
  ghost predicate Linked(h: Hashes, m: Man) {
    Indexed(m) && Tabled(h, m)
  }

  // nNew is `uncounted` short of the number of new entries.
  ghost predicate Counted(m: Man, uncounted: int) {
    m.nNew + uncounted == |NewIds(m.info)| && m.nTried == |TriedIds(m.info)|
  }

  // Every new entry is referenced, `loose` possibly excepted.
  ghost predicate Referenced(info: map<int, Info>, loose: set<int>) {
    forall id | id in info && id !in loose :: info[id].fInTried || info[id].nRefCount > 0
  }

  ghost predicate Consistent(h: Hashes, m: Man) {
    Linked(h, m) && Counted(m, 0) && Referenced(m.info, {})
  }

  /******* Primitive operations *******/

  function Put(m: Man, id: int, i: Info): Man {
    m.(info := m.info[id := i])
  }

  function Create(m: Man, i: Info): Man {
    var id := m.nIdCount;
    m.(nIdCount := id + 1,
       info := m.info[id := i.(nRandomPos := |m.random|)],
       addr := m.addr[i.service.ip := id],
       random := m.random + [id])
  }

  // What SwapRandom needs for its asserts.
  predicate CanSwap(m: Man, p: int, q: int) {
    p == q || (0 <= p < |m.random| && 0 <= q < |m.random| && m.random[p] in m.info && m.random[q] in m.info)
  }

  function SwapRandom(m: Man, p: int, q: int): Man
    requires CanSwap(m, p, q)
  {
    if p == q then m
    else
      var a, b := m.random[p], m.random[q];
      var info1 := m.info[a := m.info[a].(nRandomPos := q)];
      m.(info := info1[b := info1[b].(nRandomPos := p)], random := m.random[p := b][q := a])
  }

  // What Delete needs for its asserts.
  predicate CanDelete(m: Man, id: int) {
    && id in m.info && !m.info[id].fInTried && m.info[id].nRefCount == 0
    && |m.random| > 0 && CanSwap(m, m.info[id].nRandomPos, |m.random| - 1)
  }

  // Deleting after the swap: the entry to go is last in vRandom.
  function DropLast(m: Man, id: int): Man
    requires id in m.info && |m.random| > 0
  {
    m.(random := m.random[..|m.random| - 1], addr := m.addr - {m.info[id].service.ip},
       info := m.info - {id}, nNew := m.nNew - 1)
  }

  function Delete(m: Man, id: int): Man
    requires CanDelete(m, id)
  {
    DropLast(SwapRandom(m, m.info[id].nRandomPos, |m.random| - 1), id)
  }

  // Taking one reference away, the first half of ClearNew.
  function Unref(m: Man, s: Slot, id: int): Man
    requires id in m.info
  {
    var i := m.info[id];
    m.(info := m.info[id := i.(nRefCount := i.nRefCount - 1)], newT := m.newT - {s})
  }

  // What ClearNew needs for its asserts.
  predicate CanClear(m: Man, s: Slot) {
    s in m.newT ==>
      var id := m.newT[s];
      && id in m.info && m.info[id].nRefCount > 0
      && (m.info[id].nRefCount == 1 ==> CanDelete(Unref(m, s, id), id))
  }

  function ClearNew(m: Man, s: Slot): Man
    requires CanClear(m, s)
  {
    if s !in m.newT then m
    else
      var id := m.newT[s];
      if m.info[id].nRefCount == 1 then Delete(Unref(m, s, id), id) else Unref(m, s, id)
  }

  // The first loop of MakeTried over the buckets below n: the entry's references go.
  function StripTo(h: Hashes, m: Man, id: int, n: nat): (r: Man)
    requires id in m.info
    ensures id in r.info && r.info[id].service == m.info[id].service
  {
    if n == 0 then m
    else StripOne(h, StripTo(h, m, id, n - 1), id, n - 1)
  }

  function StripOne(h: Hashes, m: Man, id: int, b: nat): (r: Man)
    requires id in m.info
    ensures id in r.info && r.info[id].service == m.info[id].service
  {
    var s := NewSlot(h, m.info[id].service, b);
    if s in m.newT && m.newT[s] == id then Unref(m, s, id) else m
  }

  function Strip(h: Hashes, m: Man, id: int): Man
    requires id in m.info
  {
    StripTo(h, m, id, NEW_BUCKET_COUNT).(nNew := m.nNew - 1)
  }

  // The entry leaves its tried slot.
  function Evict(m: Man, s: Slot, id: int): Man
    requires id in m.info
  {
    m.(info := m.info[id := m.info[id].(fInTried := false)], triedT := m.triedT - {s}, nTried := m.nTried - 1)
  }

  // The evicted entry enters the new table again, with one reference.
  function Readmit(m: Man, s: Slot, id: int): Man
    requires id in m.info
  {
    m.(info := m.info[id := m.info[id].(nRefCount := 1)], newT := m.newT[s := id], nNew := m.nNew + 1)
  }

  function Promote(m: Man, s: Slot, id: int): Man
    requires id in m.info
  {
    m.(info := m.info[id := m.info[id].(fInTried := true)], triedT := m.triedT[s := id], nTried := m.nTried + 1)
  }

  function HomeSlot(h: Hashes, i: Info): Slot {
    NewSlot(h, i.service, GetNewBucket(h, i.service, i.source))
  }

  // A free new slot is given to an entry.
  function Refer(m: Man, s: Slot, id: int): Man
    requires id in m.info
  {
    var i := m.info[id];
    m.(info := m.info[id := i.(nRefCount := i.nRefCount + 1)], newT := m.newT[s := id])
  }

  /******* What the primitive operations keep *******/

  // The tables only look at the service, the tried flag and the reference count.
  ghost predicate SameEntry(i: Info, i': Info) {
    i'.service == i.service && i'.fInTried == i.fInTried && i'.nRefCount == i.nRefCount
  }

  ghost predicate SameForTables(info: map<int, Info>, info': map<int, Info>) {
    && (forall id :: id in info <==> id in info')
    && (forall id | id in info :: SameEntry(info[id], info'[id]))
  }

  lemma PutSame(info: map<int, Info>, id: int, i: Info)
    requires id in info && SameEntry(info[id], i)
    ensures SameForTables(info, info[id := i])
  {
  }

  lemma TablesSame(h: Hashes, m: Man, m': Man)
    requires SameForTables(m.info, m'.info) && m'.newT == m.newT && m'.triedT == m.triedT && Tabled(h, m)
    ensures Tabled(h, m')
  {
    forall id | id in m'.info ensures EntryOk(h, m'.info[id], id, m.newT, m.triedT) {
      assert SameEntry(m.info[id], m'.info[id]) && EntryOk(h, m.info[id], id, m.newT, m.triedT);
    }
    forall s | s in m.newT ensures NewSlotOk(h, m'.info, s, m.newT[s]) {
      var id := m.newT[s];
      assert NewSlotOk(h, m.info, s, id) && SameEntry(m.info[id], m'.info[id]);
    }
    forall s | s in m.triedT ensures TriedSlotOk(h, m'.info, s, m.triedT[s]) {
      var id := m.triedT[s];
      assert TriedSlotOk(h, m.info, s, id) && SameEntry(m.info[id], m'.info[id]);
    }
  }

  lemma IdsSame(info: map<int, Info>, info': map<int, Info>, loose: set<int>)
    requires SameForTables(info, info')
    ensures NewIds(info') == NewIds(info) && TriedIds(info') == TriedIds(info)
    ensures Referenced(info, loose) ==> Referenced(info', loose)
  {
    assert forall id | id in info :: SameEntry(info[id], info'[id]);
    assert forall id :: id in NewIds(info') <==> id in NewIds(info);
    assert forall id :: id in TriedIds(info') <==> id in TriedIds(info);
  }

  lemma AddrSame(info: map<int, Info>, info': map<int, Info>, addr: map<NetAddr, int>, nIdCount: int)
    requires SameForTables(info, info') && AddrOk(info, addr, nIdCount)
    ensures AddrOk(info', addr, nIdCount)
  {
    forall id | id in info'
      ensures 0 <= id < nIdCount && info'[id].service.ip in addr && addr[info'[id].service.ip] == id
    {
      assert SameEntry(info[id], info'[id]);
    }
    forall a | a in addr ensures addr[a] in info' && info'[addr[a]].service.ip == a {
      var id := addr[a];
      assert id in info;
      assert SameEntry(info[id], info'[id]);
    }
  }

  // A change of statistics only: neither tables nor indexes notice.
  lemma StatsKeep(h: Hashes, m: Man, id: int, i: Info)
    requires Linked(h, m) && id in m.info && SameEntry(m.info[id], i) && i.nRandomPos == m.info[id].nRandomPos
    ensures Linked(h, Put(m, id, i)) && SameForTables(m.info, Put(m, id, i).info)
  {
    var m' := Put(m, id, i);
    TablesSame(h, m, m');
    AddrSame(m.info, m'.info, m.addr, m.nIdCount);
    assert forall k | k in m.info :: m'.info[k].nRandomPos == m.info[k].nRandomPos;
  }

  /******* SwapRandom *******/

  lemma SwapRandomOk(m: Man, p: int, q: int)
    requires RandomOk(m.info, m.random) && 0 <= p < |m.random| && 0 <= q < |m.random|
    ensures CanSwap(m, p, q)
    ensures RandomOk(SwapRandom(m, p, q).info, SwapRandom(m, p, q).random)
  {
    assert CanSwap(m, p, q);
    var m' := SwapRandom(m, p, q);
    if p != q {
      var a, b := m.random[p], m.random[q];
      assert a != b;
      forall id | id in m'.info
        ensures 0 <= m'.info[id].nRandomPos < |m'.random| && m'.random[m'.info[id].nRandomPos] == id
      {
        if id != a && id != b { assert m'.info[id] == m.info[id]; }
      }
      forall k | 0 <= k < |m'.random| ensures m'.random[k] in m'.info && m'.info[m'.random[k]].nRandomPos == k {
        if k != p && k != q { assert m'.random[k] == m.random[k] && m.random[k] != a && m.random[k] != b; }
      }
    }
  }

  lemma SwapSame(m: Man, p: int, q: int)
    requires CanSwap(m, p, q)
    ensures var m' := SwapRandom(m, p, q);
            && SameForTables(m.info, m'.info) && m' == m.(info := m'.info, random := m'.random)
            && (p != q ==> m'.random == m.random[p := m.random[q]][q := m.random[p]])
            && (p == q ==> m' == m)
  {
  }

  lemma SwapLinked(h: Hashes, m: Man, p: int, q: int)
    requires Linked(h, m) && 0 <= p < |m.random| && 0 <= q < |m.random|
    ensures CanSwap(m, p, q) && Linked(h, SwapRandom(m, p, q))
  {
    SwapRandomOk(m, p, q);
    SwapSame(m, p, q);
    var m' := SwapRandom(m, p, q);
    TablesSame(h, m, m');
    AddrSame(m.info, m'.info, m.addr, m.nIdCount);
  }

  /******* Create *******/

  lemma NoSlots(h: Hashes, m: Man, id: int)
    requires Tabled(h, m) && id !in m.info
    ensures SlotsOf(m.newT, id) == {}
  {
    forall s | s in m.newT ensures m.newT[s] != id {
      assert NewSlotOk(h, m.info, s, m.newT[s]);
    }
  }

  lemma CreateRandom(m: Man, i: Info)
    requires RandomOk(m.info, m.random) && m.nIdCount !in m.info
    ensures RandomOk(Create(m, i).info, Create(m, i).random)
  {
    var m' := Create(m, i);
    forall k | 0 <= k < |m.random| ensures m'.random[k] in m'.info && m'.info[m'.random[k]].nRandomPos == k {
      assert m.random[k] in m.info && m.info[m.random[k]].nRandomPos == k;
    }
    forall k | k in m.info ensures 0 <= m'.info[k].nRandomPos < |m'.random| && m'.random[m'.info[k].nRandomPos] == k {
      assert m'.info[k] == m.info[k];
    }
  }

  lemma CreateAddr(m: Man, i: Info)
    requires AddrOk(m.info, m.addr, m.nIdCount) && i.service.ip !in m.addr
    ensures m.nIdCount !in m.info && AddrOk(Create(m, i).info, Create(m, i).addr, Create(m, i).nIdCount)
  {
    var m', id := Create(m, i), m.nIdCount;
    forall k | k in m.info ensures m'.info[k] == m.info[k] && m.info[k].service.ip != i.service.ip { }
    forall a | a in m.addr ensures m'.addr[a] == m.addr[a] && m.addr[a] != id { }
  }

  lemma CreateIndexed(m: Man, i: Info)
    requires Indexed(m) && i.service.ip !in m.addr
    ensures m.nIdCount !in m.info && Indexed(Create(m, i))
  {
    CreateAddr(m, i);
    CreateRandom(m, i);
  }

  lemma CreateTabled(h: Hashes, m: Man, i: Info)
    requires Tabled(h, m) && m.nIdCount !in m.info && i.nRefCount == 0 && !i.fInTried
    ensures Tabled(h, Create(m, i))
  {
    var m', id := Create(m, i), m.nIdCount;
    NoSlots(h, m, id);
    forall s | s in m.newT ensures NewSlotOk(h, m'.info, s, m.newT[s]) {
      assert NewSlotOk(h, m.info, s, m.newT[s]);
    }
    forall s | s in m.triedT ensures TriedSlotOk(h, m'.info, s, m.triedT[s]) {
      assert TriedSlotOk(h, m.info, s, m.triedT[s]);
    }
    forall k | k in m'.info ensures EntryOk(h, m'.info[k], k, m.newT, m.triedT) {
      if k != id { assert EntryOk(h, m.info[k], k, m.newT, m.triedT); }
    }
  }

  lemma CreateIds(info: map<int, Info>, id: int, i: Info)
    requires id !in info
    ensures NewIds(info[id := i]) == if i.fInTried then NewIds(info) else NewIds(info) + {id}
    ensures TriedIds(info[id := i]) == if i.fInTried then TriedIds(info) + {id} else TriedIds(info)
  {
  }

  lemma CreateKeeps(h: Hashes, m: Man, i: Info)
    requires Linked(h, m) && i.service.ip !in m.addr && i.nRefCount == 0 && !i.fInTried
    ensures Linked(h, Create(m, i)) && m.nIdCount !in m.info
  {
    CreateIndexed(m, i);
    CreateTabled(h, m, i);
  }

  /******* Delete *******/

  lemma DropLastIndexed(m: Man, id: int)
    requires Indexed(m) && id in m.info && m.info[id].nRandomPos == |m.random| - 1
    ensures Indexed(DropLast(m, id))
  {
    var m' := DropLast(m, id);
    forall k | k in m'.info ensures m'.info[k].service.ip in m'.addr {
      assert m.addr[m.info[k].service.ip] == k;
    }
    forall k | 0 <= k < |m'.random| ensures m'.random[k] in m'.info {
      assert m.random[k] in m.info && m.info[m.random[k]].nRandomPos == k;
    }
  }

  lemma DropLastTabled(h: Hashes, m: Man, id: int)
    requires Tabled(h, m) && id in m.info && |m.random| > 0 && !m.info[id].fInTried && m.info[id].nRefCount == 0
    ensures Tabled(h, DropLast(m, id))
  {
    var m' := DropLast(m, id);
    assert EntryOk(h, m.info[id], id, m.newT, m.triedT);
    assert SlotsOf(m.newT, id) == {};
    forall s | s in m.newT ensures NewSlotOk(h, m'.info, s, m.newT[s]) {
      assert NewSlotOk(h, m.info, s, m.newT[s]) && s !in SlotsOf(m.newT, id);
    }
    forall s | s in m.triedT ensures TriedSlotOk(h, m'.info, s, m.triedT[s]) {
      assert TriedSlotOk(h, m.info, s, m.triedT[s]);
    }
    forall k | k in m'.info ensures EntryOk(h, m'.info[k], k, m.newT, m.triedT) {
      assert EntryOk(h, m.info[k], k, m.newT, m.triedT);
    }
  }

  lemma DropKeeps(h: Hashes, m: Man, id: int)
    requires Linked(h, m) && id in m.info && !m.info[id].fInTried && m.info[id].nRefCount == 0
    requires |m.random| > 0 && m.random[|m.random| - 1] == id
    ensures Linked(h, DropLast(m, id))
  {
    assert m.info[id].nRandomPos == |m.random| - 1;
    DropLastIndexed(m, id);
    DropLastTabled(h, m, id);
  }

  lemma DeletePossible(m: Man, id: int)
    requires Indexed(m) && id in m.info && !m.info[id].fInTried && m.info[id].nRefCount == 0
    ensures CanDelete(m, id)
  {
    var last := |m.random| - 1;
    assert m.random[last] in m.info;
  }

  lemma SwappedAt(m: Man, p: int, q: int, id: int)
    requires CanSwap(m, p, q) && 0 <= p < |m.random| && 0 <= q < |m.random| && m.random[p] == id && id in m.info
    ensures var m1 := SwapRandom(m, p, q);
            |m1.random| == |m.random| && m1.random[q] == id && id in m1.info && SameEntry(m.info[id], m1.info[id])
  {
    SwapSame(m, p, q);
  }

  lemma SwapDropKeeps(h: Hashes, m: Man, p: int, q: int, id: int)
    requires Linked(h, m) && CanSwap(m, p, q) && 0 <= p < |m.random| && q == |m.random| - 1 && m.random[p] == id
    requires id in m.info && !m.info[id].fInTried && m.info[id].nRefCount == 0
    ensures id in SwapRandom(m, p, q).info && |SwapRandom(m, p, q).random| > 0
    ensures Linked(h, DropLast(SwapRandom(m, p, q), id))
  {
    SwapLinked(h, m, p, q);
    SwappedAt(m, p, q, id);
    DropKeeps(h, SwapRandom(m, p, q), id);
  }

  lemma DeleteKeeps(h: Hashes, m: Man, id: int)
    requires Linked(h, m)
    ensures !CanDelete(m, id) || Linked(h, Delete(m, id))
  {
    if CanDelete(m, id) {
      assert m.random[m.info[id].nRandomPos] == id;
      SwapDropKeeps(h, m, m.info[id].nRandomPos, |m.random| - 1, id);
      DeleteIs(m, id);
    }
  }

  lemma DeleteIs(m: Man, id: int)
    requires CanDelete(m, id)
    ensures Delete(m, id) == DropLast(SwapRandom(m, m.info[id].nRandomPos, |m.random| - 1), id)
  {
  }

  // What is left of an entry map without one entry, vRandom places apart.
  ghost predicate Without(info: map<int, Info>, id: int, info': map<int, Info>) {
    && SameForTables(info - {id}, info')
    && NewIds(info') == NewIds(info) - {id} && TriedIds(info') == TriedIds(info) - {id}
  }

  lemma SameIsWithout(info: map<int, Info>, info1: map<int, Info>, id: int)
    requires SameForTables(info, info1)
    ensures Without(info, id, info1 - {id})
  {
    SameWithout(info, info1, id);
    IdsSame(info - {id}, info1 - {id}, {});
    assert NewIds(info - {id}) == NewIds(info) - {id};
    assert TriedIds(info - {id}) == TriedIds(info) - {id};
  }

  // Delete takes out one new entry and touches no other but for its place in vRandom.
  lemma DeleteSame(m: Man, id: int)
    ensures !CanDelete(m, id) || Deleted(m, id, Delete(m, id))
  {
    if CanDelete(m, id) {
      var pos, last := m.info[id].nRandomPos, |m.random| - 1;
      SwapSame(m, pos, last);
      SameIsWithout(m.info, SwapRandom(m, pos, last).info, id);
      assert SameEntry(m.info[id], SwapRandom(m, pos, last).info[id]);
      DeleteIs(m, id);
    }
  }

  ghost predicate Deleted(m: Man, id: int, m': Man)
    requires id in m.info
  {
    && Without(m.info, id, m'.info)
    && m' == m.(info := m'.info, random := m'.random, nNew := m.nNew - 1, addr := m.addr - {m.info[id].service.ip})
  }

  lemma SameWithout(info: map<int, Info>, info': map<int, Info>, id: int)
    requires SameForTables(info, info')
    ensures SameForTables(info - {id}, info' - {id})
  {
    forall k | k in info - {id} ensures SameEntry((info - {id})[k], (info' - {id})[k]) {
      assert SameEntry(info[k], info'[k]);
    }
  }

  /******* References *******/

  lemma SlotsAfterRemove(t: Table, s: Slot, id: int)
    requires s in t
    ensures SlotsOf(t - {s}, id) == SlotsOf(t, id) - {s}
    ensures |SlotsOf(t - {s}, id)| == |SlotsOf(t, id)| - (if t[s] == id then 1 else 0)
  {
    assert forall x :: x in SlotsOf(t - {s}, id) <==> x in SlotsOf(t, id) - {s};
    if t[s] == id { assert s in SlotsOf(t, id); } else { assert s !in SlotsOf(t, id); }
  }

  lemma SlotsAfterPut(t: Table, s: Slot, v: int, id: int)
    requires s !in t
    ensures SlotsOf(t[s := v], id) == SlotsOf(t, id) + (if v == id then {s} else {})
    ensures |SlotsOf(t[s := v], id)| == |SlotsOf(t, id)| + (if v == id then 1 else 0)
  {
    assert s !in SlotsOf(t, id);
    if v == id {
      assert SlotsOf(t[s := v], id) == SlotsOf(t, id) + {s};
    } else {
      assert SlotsOf(t[s := v], id) == SlotsOf(t, id);
    }
  }

  lemma RecountIndexed(m: Man, id: int, n: int, newT: Table)
    requires Indexed(m) && id in m.info
    ensures Indexed(m.(info := m.info[id := m.info[id].(nRefCount := n)], newT := newT))
  {
    var info' := m.info[id := m.info[id].(nRefCount := n)];
    assert forall k | k in m.info ::
        info'[k].service == m.info[k].service && info'[k].nRandomPos == m.info[k].nRandomPos;
  }

  lemma RecountIds(info: map<int, Info>, id: int, n: int)
    requires id in info
    ensures var info' := info[id := info[id].(nRefCount := n)];
            NewIds(info') == NewIds(info) && TriedIds(info') == TriedIds(info)
  {
  }

  lemma UnrefTabled(h: Hashes, m: Man, s: Slot, id: int)
    requires Tabled(h, m) && s in m.newT && m.newT[s] == id
    ensures id in m.info && m.info[id].nRefCount > 0 && !m.info[id].fInTried && Tabled(h, Unref(m, s, id))
  {
    assert NewSlotOk(h, m.info, s, m.newT[s]) && EntryOk(h, m.info[id], id, m.newT, m.triedT);
    assert s in SlotsOf(m.newT, id);
    var m' := Unref(m, s, id);
    forall k | k in m'.info ensures EntryOk(h, m'.info[k], k, m'.newT, m'.triedT) {
      assert EntryOk(h, m.info[k], k, m.newT, m.triedT);
      SlotsAfterRemove(m.newT, s, k);
    }
    forall x | x in m'.newT ensures NewSlotOk(h, m'.info, x, m'.newT[x]) {
      assert NewSlotOk(h, m.info, x, m.newT[x]);
    }
    forall x | x in m'.triedT ensures TriedSlotOk(h, m'.info, x, m'.triedT[x]) {
      assert TriedSlotOk(h, m.info, x, m.triedT[x]);
    }
  }

  lemma ReferTabled(h: Hashes, m: Man, s: Slot, id: int)
    requires Tabled(h, m) && s !in m.newT
    requires NewSlotOk(h, m.info, s, id) && m.info[id].nRefCount < NEW_BUCKETS_PER_ADDRESS
    ensures Tabled(h, Refer(m, s, id))
  {
    var m' := Refer(m, s, id);
    forall k | k in m'.info ensures EntryOk(h, m'.info[k], k, m'.newT, m'.triedT) {
      assert EntryOk(h, m.info[k], k, m.newT, m.triedT);
      SlotsAfterPut(m.newT, s, id, k);
    }
    forall x | x in m'.newT ensures NewSlotOk(h, m'.info, x, m'.newT[x]) {
      if x != s { assert NewSlotOk(h, m.info, x, m.newT[x]); }
    }
    forall x | x in m'.triedT ensures TriedSlotOk(h, m'.info, x, m'.triedT[x]) {
      assert TriedSlotOk(h, m.info, x, m.triedT[x]);
    }
  }

  lemma UnrefKeeps(h: Hashes, m: Man, s: Slot, id: int)
    requires Linked(h, m) && s in m.newT && m.newT[s] == id
    ensures id in m.info && m.info[id].nRefCount > 0 && !m.info[id].fInTried && Linked(h, Unref(m, s, id))
  {
    UnrefTabled(h, m, s, id);
    RecountIndexed(m, id, m.info[id].nRefCount - 1, m.newT - {s});
  }

  lemma ReferKeeps(h: Hashes, m: Man, s: Slot, id: int)
    requires Linked(h, m) && s !in m.newT
    requires NewSlotOk(h, m.info, s, id) && m.info[id].nRefCount < NEW_BUCKETS_PER_ADDRESS
    ensures Linked(h, Refer(m, s, id))
  {
    ReferTabled(h, m, s, id);
    RecountIndexed(m, id, m.info[id].nRefCount + 1, m.newT[s := id]);
  }

  /******* ClearNew *******/

  lemma ClearNewPossible(h: Hashes, m: Man, s: Slot)
    requires Linked(h, m)
    ensures CanClear(m, s)
  {
    if s in m.newT {
      var id := m.newT[s];
      UnrefKeeps(h, m, s, id);
      if m.info[id].nRefCount == 1 { DeletePossible(Unref(m, s, id), id); }
    }
  }

  lemma ClearNewKeeps(h: Hashes, m: Man, s: Slot)
    requires Linked(h, m) && CanClear(m, s)
    ensures Linked(h, ClearNew(m, s)) && s !in ClearNew(m, s).newT
    ensures s in m.newT ==> (m.newT[s] in ClearNew(m, s).info <==> m.info[m.newT[s]].nRefCount != 1)
  {
    if s in m.newT {
      var id := m.newT[s];
      UnrefKeeps(h, m, s, id);
      if m.info[id].nRefCount == 1 { DeleteKeeps(h, Unref(m, s, id), id); }
    }
  }

  // The only kind of entry that is ever dropped from the manager.
  ghost predicate OneReference(i: Info) {
    !i.fInTried && i.nRefCount == 1
  }

  // What a step leaves of the entries: the one named id may change or go, no
  // other loses anything, and none is left unreferenced that was referenced.
  ghost predicate OthersKept(info: map<int, Info>, id: int, info': map<int, Info>) {
    && (forall k | k in info && k != id :: k in info' && SameEntry(info[k], info'[k]))
    && (forall k | k in info' :: k in info)
    && (id in info' ==> info'[id].service == info[id].service)
  }

  lemma UnrefOthers(m: Man, s: Slot, id: int)
    requires id in m.info
    ensures OthersKept(m.info, id, Unref(m, s, id).info)
  {
  }

  lemma DeleteOthers(m: Man, id: int)
    requires CanDelete(m, id)
    ensures OthersKept(m.info, id, Delete(m, id).info) && id !in Delete(m, id).info
  {
    DeleteSame(m, id);
    var info' := Delete(m, id).info;
    forall k | k in m.info && k != id ensures k in info' && SameEntry(m.info[k], info'[k]) {
      assert k in m.info - {id};
    }
    forall k | k in info' ensures k in m.info && k != id {
      assert k in m.info - {id};
    }
  }

  lemma DeleteCounts(m: Man, id: int)
    requires CanDelete(m, id)
    ensures |NewIds(Delete(m, id).info)| - Delete(m, id).nNew == |NewIds(m.info)| - m.nNew
    ensures TriedIds(Delete(m, id).info) == TriedIds(m.info)
  {
    DeleteSame(m, id);
    assert id in NewIds(m.info) && id !in TriedIds(m.info);
  }

  lemma OthersTrans(info: map<int, Info>, id: int, info1: map<int, Info>, info2: map<int, Info>)
    requires id in info && OthersKept(info, id, info1) && OthersKept(info1, id, info2)
    ensures OthersKept(info, id, info2)
  {
    forall k | k in info && k != id ensures k in info2 && SameEntry(info[k], info2[k]) {
      assert SameEntry(info[k], info1[k]) && SameEntry(info1[k], info2[k]);
    }
  }

  ghost predicate Cleared(m: Man, s: Slot, m': Man) {
    && m'.newT == m.newT - {s} && m'.triedT == m.triedT && m'.nTried == m.nTried && m'.nIdCount == m.nIdCount
    && TriedIds(m'.info) == TriedIds(m.info)
    && |NewIds(m'.info)| - m'.nNew == |NewIds(m.info)| - m.nNew
    && (s !in m.newT ==> m'.info == m.info)
    && (s in m.newT ==>
          && OthersKept(m.info, m.newT[s], m'.info)
          && (m.newT[s] in m'.info ==> m'.info[m.newT[s]].nRefCount > 0)
          && (m.newT[s] !in m'.info ==> m.newT[s] in m.info && OneReference(m.info[m.newT[s]])))
  }

  lemma ClearNewFrame(h: Hashes, m: Man, s: Slot)
    requires Linked(h, m) && CanClear(m, s)
    ensures Cleared(m, s, ClearNew(m, s))
  {
    if s !in m.newT {
      assert m.newT - {s} == m.newT;
    } else {
      var id := m.newT[s];
      var m1 := Unref(m, s, id);
      UnrefOthers(m, s, id);
      UnrefKeeps(h, m, s, id);
      RecountIds(m.info, id, m.info[id].nRefCount - 1);
      if m.info[id].nRefCount == 1 {
        DeleteOthers(m1, id);
        DeleteCounts(m1, id);
        DeleteSame(m1, id);
        OthersTrans(m.info, id, m1.info, Delete(m1, id).info);
      }
    }
  }

  lemma OthersReferenced(info: map<int, Info>, id: int, info': map<int, Info>, loose: set<int>)
    requires Referenced(info, loose) && OthersKept(info, id, info')
    requires id in info' ==> id in loose || info'[id].fInTried || info'[id].nRefCount > 0
    ensures Referenced(info', loose)
  {
    forall k | k in info' && k !in loose ensures info'[k].fInTried || info'[k].nRefCount > 0 {
      if k != id { assert SameEntry(info[k], info'[k]); }
    }
  }

  /******* MakeTried *******/

  // Stripping leaves the tried table, the other entries and their slots alone.
  ghost predicate Stripped(m: Man, id: int, n: nat, m': Man) {
    && m' == m.(info := m'.info, newT := m'.newT)
    && id in m.info && id in m'.info
    && OthersKept(m.info, id, m'.info) && m'.info[id].fInTried == m.info[id].fInTried
    && m'.info[id].source == m.info[id].source
    && NewIds(m'.info) == NewIds(m.info) && TriedIds(m'.info) == TriedIds(m.info)
    && (forall s | s in m'.newT :: s in m.newT && m'.newT[s] == m.newT[s])
    && (forall s | s in m'.newT && s.bucket < n :: m'.newT[s] != id)
  }

  lemma StripStep(h: Hashes, m: Man, id: int, n: nat, m1: Man, s: Slot)
    requires Stripped(m, id, n, m1) && Linked(h, m1) && s == NewSlot(h, m1.info[id].service, n)
    ensures s in m1.newT && m1.newT[s] == id ==> Stripped(m, id, n + 1, Unref(m1, s, id))
    ensures !(s in m1.newT && m1.newT[s] == id) ==> Stripped(m, id, n + 1, m1)
  {
    forall x | x in m1.newT && x.bucket == n && m1.newT[x] == id ensures x == s {
      assert NewSlotOk(h, m1.info, x, m1.newT[x]);
    }
    if s in m1.newT && m1.newT[s] == id {
      UnrefOthers(m1, s, id);
      OthersTrans(m.info, id, m1.info, Unref(m1, s, id).info);
      RecountIds(m1.info, id, m1.info[id].nRefCount - 1);
    }
  }

  lemma {:induction false} StripKeeps(h: Hashes, m: Man, id: int, n: nat)
    requires Linked(h, m) && id in m.info
    ensures Linked(h, StripTo(h, m, id, n)) && Stripped(m, id, n, StripTo(h, m, id, n))
  {
    if n > 0 {
      StripKeeps(h, m, id, n - 1);
      var m1 := StripTo(h, m, id, n - 1);
      var s := NewSlot(h, m1.info[id].service, n - 1);
      StripStep(h, m, id, n - 1, m1, s);
      if s in m1.newT && m1.newT[s] == id { UnrefKeeps(h, m1, s, id); }
    }
  }

  // After the loop no reference is left: the source's assert holds.
  lemma StripEmpties(h: Hashes, m: Man, id: int)
    requires Linked(h, m) && id in m.info
    ensures StripTo(h, m, id, NEW_BUCKET_COUNT).info[id].nRefCount == 0
    ensures SlotsOf(StripTo(h, m, id, NEW_BUCKET_COUNT).newT, id) == {}
  {
    StripKeeps(h, m, id, NEW_BUCKET_COUNT);
    var m' := StripTo(h, m, id, NEW_BUCKET_COUNT);
    forall s | s in m'.newT ensures m'.newT[s] != id {
      assert NewSlotOk(h, m'.info, s, m'.newT[s]);
    }
    assert SlotsOf(m'.newT, id) == {};
    assert EntryOk(h, m'.info[id], id, m'.newT, m'.triedT);
  }

  // Moving an entry between the tables does not disturb the other two indexes.
  lemma FlagIndexed(m: Man, id: int, tried: bool, triedT: Table, n: int)
    requires Indexed(m) && id in m.info
    ensures Indexed(m.(info := m.info[id := m.info[id].(fInTried := tried)], triedT := triedT, nTried := n))
  {
    var info' := m.info[id := m.info[id].(fInTried := tried)];
    assert forall k | k in m.info ::
        info'[k].service == m.info[k].service && info'[k].nRandomPos == m.info[k].nRandomPos;
  }

  lemma EvictTabled(h: Hashes, m: Man, s: Slot, id: int)
    requires Tabled(h, m) && s in m.triedT && m.triedT[s] == id
    ensures id in m.info && m.info[id].fInTried && m.info[id].nRefCount == 0 && Tabled(h, Evict(m, s, id))
  {
    assert TriedSlotOk(h, m.info, s, m.triedT[s]) && EntryOk(h, m.info[id], id, m.newT, m.triedT);
    var m' := Evict(m, s, id);
    forall k | k in m'.info ensures EntryOk(h, m'.info[k], k, m'.newT, m'.triedT) {
      assert EntryOk(h, m.info[k], k, m.newT, m.triedT);
    }
    forall x | x in m'.newT ensures NewSlotOk(h, m'.info, x, m'.newT[x]) {
      assert NewSlotOk(h, m.info, x, m.newT[x]);
    }
    forall x | x in m'.triedT ensures TriedSlotOk(h, m'.info, x, m'.triedT[x]) {
      assert TriedSlotOk(h, m.info, x, m.triedT[x]);
    }
  }

  lemma EvictKeeps(h: Hashes, m: Man, s: Slot, id: int)
    requires Linked(h, m) && s in m.triedT && m.triedT[s] == id
    ensures id in m.info && m.info[id].fInTried && m.info[id].nRefCount == 0 && Linked(h, Evict(m, s, id))
  {
    EvictTabled(h, m, s, id);
    FlagIndexed(m, id, false, m.triedT - {s}, m.nTried - 1);
  }

  lemma EvictIds(m: Man, s: Slot, id: int)
    requires id in m.info && m.info[id].fInTried
    ensures OthersKept(m.info, id, Evict(m, s, id).info)
    ensures NewIds(Evict(m, s, id).info) == NewIds(m.info) + {id} && id !in NewIds(m.info)
    ensures TriedIds(Evict(m, s, id).info) == TriedIds(m.info) - {id} && id in TriedIds(m.info)
  {
  }

  lemma PromoteTabled(h: Hashes, m: Man, s: Slot, id: int)
    requires Tabled(h, m) && id in m.info && !m.info[id].fInTried && m.info[id].nRefCount == 0
    requires s == TriedSlot(h, m.info[id].service) && s !in m.triedT
    ensures Tabled(h, Promote(m, s, id))
  {
    var m' := Promote(m, s, id);
    assert EntryOk(h, m.info[id], id, m.newT, m.triedT);
    assert SlotsOf(m.newT, id) == {};
    forall k | k in m'.info ensures EntryOk(h, m'.info[k], k, m'.newT, m'.triedT) {
      assert EntryOk(h, m.info[k], k, m.newT, m.triedT);
    }
    forall x | x in m'.newT ensures NewSlotOk(h, m'.info, x, m'.newT[x]) {
      assert NewSlotOk(h, m.info, x, m.newT[x]) && x !in SlotsOf(m.newT, id);
    }
    forall x | x in m'.triedT ensures TriedSlotOk(h, m'.info, x, m'.triedT[x]) {
      if x != s { assert TriedSlotOk(h, m.info, x, m.triedT[x]); }
    }
  }

  lemma PromoteKeeps(h: Hashes, m: Man, s: Slot, id: int)
    requires Linked(h, m) && id in m.info && !m.info[id].fInTried && m.info[id].nRefCount == 0
    requires s == TriedSlot(h, m.info[id].service) && s !in m.triedT
    ensures Linked(h, Promote(m, s, id))
  {
    PromoteTabled(h, m, s, id);
    FlagIndexed(m, id, true, m.triedT[s := id], m.nTried + 1);
  }

  lemma PromoteIds(m: Man, s: Slot, id: int)
    requires id in m.info && !m.info[id].fInTried
    ensures OthersKept(m.info, id, Promote(m, s, id).info)
    ensures NewIds(Promote(m, s, id).info) == NewIds(m.info) - {id} && id in NewIds(m.info)
    ensures TriedIds(Promote(m, s, id).info) == TriedIds(m.info) + {id} && id !in TriedIds(m.info)
  {
  }

  lemma ReadmitKeeps(h: Hashes, m: Man, s: Slot, id: int)
    requires Linked(h, m) && s !in m.newT && NewSlotOk(h, m.info, s, id) && m.info[id].nRefCount == 0
    ensures Linked(h, Readmit(m, s, id)) && OthersKept(m.info, id, Readmit(m, s, id).info)
    ensures NewIds(Readmit(m, s, id).info) == NewIds(m.info) && TriedIds(Readmit(m, s, id).info) == TriedIds(m.info)
  {
    ReferKeeps(h, m, s, id);
    RecountIds(m.info, id, 1);
    var m' := Refer(m, s, id);
    assert Readmit(m, s, id) == m'.(nNew := m.nNew + 1);
    assert Indexed(m') && Tabled(h, m');
  }

  // What making room in a tried slot needs for its asserts.
  predicate CanMakeRoom(h: Hashes, m: Man, s: Slot) {
    s in m.triedT ==>
      var id := m.triedT[s];
      && id in m.info
      && var m2 := Evict(m, s, id);
         CanClear(m2, HomeSlot(h, m.info[id])) && id in ClearNew(m2, HomeSlot(h, m.info[id])).info
  }

  // The entry in a tried slot is moved back to the new table, displacing what
  // is in its way there.
  function MakeRoom(h: Hashes, m: Man, s: Slot): Man
    requires CanMakeRoom(h, m, s)
  {
    if s !in m.triedT then m
    else
      var id := m.triedT[s];
      var home := HomeSlot(h, m.info[id]);
      Readmit(ClearNew(Evict(m, s, id), home), home, id)
  }

  lemma HoldsNoSlot(h: Hashes, m: Man, id: int, home: Slot)
    requires Linked(h, m) && id in m.info && m.info[id].nRefCount == 0
    ensures home in m.newT ==> m.newT[home] != id
  {
    assert EntryOk(h, m.info[id], id, m.newT, m.triedT);
    assert home !in SlotsOf(m.newT, id);
  }

  lemma ClearNewSpares(h: Hashes, m: Man, home: Slot, id: int)
    requires Linked(h, m) && CanClear(m, home) && id in m.info && m.info[id].nRefCount == 0
    ensures id in ClearNew(m, home).info && SameEntry(m.info[id], ClearNew(m, home).info[id])
    ensures home !in ClearNew(m, home).newT
  {
    HoldsNoSlot(h, m, id, home);
    ClearNewFrame(h, m, home);
  }

  lemma MakeRoomPossible(h: Hashes, m: Man, s: Slot)
    requires Linked(h, m)
    ensures CanMakeRoom(h, m, s)
  {
    if s in m.triedT {
      var id := m.triedT[s];
      EvictKeeps(h, m, s, id);
      var m2, home := Evict(m, s, id), HomeSlot(h, m.info[id]);
      ClearNewPossible(h, m2, home);
      ClearNewSpares(h, m2, home, id);
    }
  }

  lemma MakeRoomLinked(h: Hashes, m: Man, s: Slot)
    requires Linked(h, m) && CanMakeRoom(h, m, s)
    ensures Linked(h, MakeRoom(h, m, s))
  {
    if s in m.triedT {
      var id := m.triedT[s];
      EvictKeeps(h, m, s, id);
      var m2, home := Evict(m, s, id), HomeSlot(h, m.info[id]);
      ClearNewKeeps(h, m2, home);
      ClearNewSpares(h, m2, home, id);
      ReadmitKeeps(h, ClearNew(m2, home), home, id);
    }
  }

  lemma MakeRoomCounts(h: Hashes, m: Man, s: Slot)
    requires Linked(h, m) && CanMakeRoom(h, m, s)
    ensures var m' := MakeRoom(h, m, s);
            && s !in m'.triedT
            && |NewIds(m'.info)| - m'.nNew == |NewIds(m.info)| - m.nNew
            && |TriedIds(m'.info)| - m'.nTried == |TriedIds(m.info)| - m.nTried
  {
    if s in m.triedT {
      var id := m.triedT[s];
      EvictKeeps(h, m, s, id);
      EvictIds(m, s, id);
      var m2, home := Evict(m, s, id), HomeSlot(h, m.info[id]);
      ClearNewFrame(h, m2, home);
      RecountIds(ClearNew(m2, home).info, id, 1);
    }
  }

  // An entry that is in no table stays as it is.
  lemma MakeRoomSpares(h: Hashes, m: Man, s: Slot, x: int)
    requires Linked(h, m) && CanMakeRoom(h, m, s) && x in m.info && !m.info[x].fInTried && m.info[x].nRefCount == 0
    ensures x in MakeRoom(h, m, s).info && SameEntry(m.info[x], MakeRoom(h, m, s).info[x])
  {
    if s in m.triedT {
      var id := m.triedT[s];
      EvictKeeps(h, m, s, id);
      var m2, home := Evict(m, s, id), HomeSlot(h, m.info[id]);
      ClearNewSpares(h, m2, home, x);
    }
  }

  // No entry appears, and one that is dropped was new with a single reference.
  ghost predicate Trimmed(info: map<int, Info>, info': map<int, Info>) {
    && (forall k | k in info' :: k in info && info'[k].service == info[k].service)
    && (forall k | k in info :: k in info' || OneReference(info[k]))
  }

  lemma TrimmedSame(info: map<int, Info>, info1: map<int, Info>, info2: map<int, Info>)
    requires SameForTables(info, info1) && Trimmed(info1, info2)
    ensures Trimmed(info, info2)
  {
    forall k | k in info ensures k in info2 || OneReference(info[k]) {
      assert SameEntry(info[k], info1[k]);
    }
    forall k | k in info2 ensures k in info && info2[k].service == info[k].service {
      assert k in info1 && SameEntry(info[k], info1[k]);
    }
  }

  lemma TrimmedRefl(info: map<int, Info>)
    ensures Trimmed(info, info) && SameForTables(info, info)
  {
  }

  // Nothing loses its last reference without being deleted.
  lemma MakeRoomRefs(h: Hashes, m: Man, s: Slot, x: int)
    requires Linked(h, m) && CanMakeRoom(h, m, s) && Referenced(m.info, {x})
    ensures Referenced(MakeRoom(h, m, s).info, {x})
  {
    if s in m.triedT {
      var id := m.triedT[s];
      EvictKeeps(h, m, s, id);
      EvictIds(m, s, id);
      var m2, home := Evict(m, s, id), HomeSlot(h, m.info[id]);
      ClearNewFrame(h, m2, home);
      MakeRoomReferenced(m, id, x, m2, ClearNew(m2, home), home);
    }
  }

  lemma MakeRoomTrims(h: Hashes, m: Man, s: Slot)
    requires Linked(h, m) && CanMakeRoom(h, m, s)
    ensures Trimmed(m.info, MakeRoom(h, m, s).info)
  {
    if s in m.triedT {
      var id := m.triedT[s];
      EvictKeeps(h, m, s, id);
      var m2, home := Evict(m, s, id), HomeSlot(h, m.info[id]);
      ClearNewFrame(h, m2, home);
      HoldsNoSlot(h, m2, id, home);
      ClearedTrims(m2, home, ClearNew(m2, home));
      EvictTrims(m.info, id, ClearNew(m2, home).info);
    }
  }

  // An entry that is moved out of the tried table and back into the new one stays.
  lemma EvictTrims(info: map<int, Info>, id: int, info3: map<int, Info>)
    requires id in info && id in info3 && Trimmed(info[id := info[id].(fInTried := false)], info3)
    ensures Trimmed(info, info3[id := info3[id].(nRefCount := 1)])
  {
    var info2 := info[id := info[id].(fInTried := false)];
    assert forall k | k in info && k != id :: info2[k] == info[k];
  }

  lemma ClearedTrims(m: Man, s: Slot, m': Man)
    requires Cleared(m, s, m') && (s in m.newT ==> m.newT[s] in m.info)
    ensures Trimmed(m.info, m'.info)
  {
    if s in m.newT {
      var id := m.newT[s];
      forall k | k in m.info && k != id ensures k in m'.info && m'.info[k].service == m.info[k].service {
        assert SameEntry(m.info[k], m'.info[k]);
      }
    }
  }

  lemma MakeRoomReferenced(m: Man, id: int, x: int, m2: Man, m3: Man, home: Slot)
    requires Referenced(m.info, {x}) && OthersKept(m.info, id, m2.info) && Cleared(m2, home, m3) && id in m3.info
    ensures Referenced(Readmit(m3, home, id).info, {x})
  {
    OthersReferenced(m.info, id, m2.info, {x, id});
    if home in m2.newT {
      OthersReferenced(m2.info, m2.newT[home], m3.info, {x, id});
    }
  }

  predicate CanMakeTried(h: Hashes, m: Man, id: int) {
    && id in m.info
    && var slot := TriedSlot(h, m.info[id].service);
       CanMakeRoom(h, Strip(h, m, id), slot) && id in MakeRoom(h, Strip(h, m, id), slot).info
  }

  function MakeTried(h: Hashes, m: Man, id: int): Man
    requires CanMakeTried(h, m, id)
  {
    var slot := TriedSlot(h, m.info[id].service);
    Promote(MakeRoom(h, Strip(h, m, id), slot), slot, id)
  }

  lemma StripFrame(h: Hashes, m: Man, id: int)
    requires Consistent(h, m) && id in m.info && !m.info[id].fInTried
    ensures var m1 := Strip(h, m, id);
            && Linked(h, m1) && Counted(m1, 1) && Referenced(m1.info, {id})
            && id in m1.info && !m1.info[id].fInTried && m1.info[id].nRefCount == 0
            && m1.info[id].service == m.info[id].service
            && OthersKept(m.info, id, m1.info)
  {
    StripKeeps(h, m, id, NEW_BUCKET_COUNT);
    StripEmpties(h, m, id);
    var m1 := StripTo(h, m, id, NEW_BUCKET_COUNT);
    OthersReferenced(m.info, id, m1.info, {id});
    assert Indexed(m1) && Tabled(h, m1);
  }

  ghost function SlotsWithout(t: Table, id: int): Table {
    map s | s in t && t[s] != id :: t[s]
  }

  // Only the slots of the entry go, and only its reference count changes.
  lemma {:induction false} StripShape(h: Hashes, m: Man, id: int, n: nat)
    requires id in m.info
    ensures var r := StripTo(h, m, id, n);
            && r == m.(info := m.info[id := m.info[id].(nRefCount := r.info[id].nRefCount)], newT := r.newT)
            && (forall s | s in r.newT :: s in m.newT && r.newT[s] == m.newT[s])
            && (forall s | s in m.newT && m.newT[s] != id :: s in r.newT)
  {
    if n > 0 {
      StripShape(h, m, id, n - 1);
    } else {
      assert m.info[id := m.info[id]] == m.info;
    }
  }

  // The loop over all new buckets leaves exactly what is not the entry's.
  lemma StripIs(h: Hashes, m: Man, id: int)
    requires Consistent(h, m) && id in m.info && !m.info[id].fInTried
    ensures Strip(h, m, id) ==
            m.(info := m.info[id := m.info[id].(nRefCount := 0)], newT := SlotsWithout(m.newT, id), nNew := m.nNew - 1)
  {
    StripShape(h, m, id, NEW_BUCKET_COUNT);
    StripFrame(h, m, id);
    StripSlots(h, m, id, Strip(h, m, id));
  }

  lemma StripSlots(h: Hashes, m: Man, id: int, r: Man)
    requires Linked(h, r) && id in r.info && r.info[id].nRefCount == 0
    requires forall s | s in r.newT :: s in m.newT && r.newT[s] == m.newT[s]
    requires forall s | s in m.newT && m.newT[s] != id :: s in r.newT
    ensures r.newT == SlotsWithout(m.newT, id)
  {
    forall s | s in r.newT ensures r.newT[s] != id { HoldsNoSlot(h, r, id, s); }
  }

  // Becoming tried changes just that slot of the tried table.
  lemma MakeTriedTable(h: Hashes, m: Man, id: int)
    requires CanMakeTried(h, m, id)
    ensures MakeTried(h, m, id).triedT == m.triedT[TriedSlot(h, m.info[id].service) := id]
  {
    StripShape(h, m, id, NEW_BUCKET_COUNT);
    var m1, slot := Strip(h, m, id), TriedSlot(h, m.info[id].service);
    if slot in m1.triedT {
      var holder := m1.triedT[slot];
      ClearNewTried(Evict(m1, slot, holder), HomeSlot(h, m1.info[holder]));
    }
  }

  lemma ClearNewTried(m: Man, s: Slot)
    requires CanClear(m, s)
    ensures ClearNew(m, s).triedT == m.triedT && s !in ClearNew(m, s).newT
  {
  }

  lemma MakeRoomEmpties(h: Hashes, m: Man, s: Slot)
    requires CanMakeRoom(h, m, s)
    ensures s !in MakeRoom(h, m, s).triedT
  {
    if s in m.triedT {
      var id := m.triedT[s];
      ClearNewTried(Evict(m, s, id), HomeSlot(h, m.info[id]));
    }
  }

  // An entry in no table and not counted: the state between the steps of MakeTried.
  ghost predicate Floating(h: Hashes, m: Man, id: int) {
    && Linked(h, m) && Counted(m, 1) && Referenced(m.info, {id})
    && id in m.info && !m.info[id].fInTried && m.info[id].nRefCount == 0
  }

  lemma RoomFloats(h: Hashes, m: Man, slot: Slot, id: int)
    requires Floating(h, m, id)
    ensures CanMakeRoom(h, m, slot) && Floating(h, MakeRoom(h, m, slot), id)
    ensures slot !in MakeRoom(h, m, slot).triedT && MakeRoom(h, m, slot).info[id].service == m.info[id].service
  {
    MakeRoomPossible(h, m, slot);
    MakeRoomLinked(h, m, slot);
    MakeRoomCounts(h, m, slot);
    MakeRoomSpares(h, m, slot, id);
    MakeRoomRefs(h, m, slot, id);
  }

  lemma PromoteLands(h: Hashes, m: Man, slot: Slot, id: int)
    requires Floating(h, m, id) && slot == TriedSlot(h, m.info[id].service) && slot !in m.triedT
    ensures Consistent(h, Promote(m, slot, id))
  {
    PromoteKeeps(h, m, slot, id);
    PromoteIds(m, slot, id);
    OthersReferenced(m.info, id, Promote(m, slot, id).info, {id});
  }

  // MakeTried keeps the manager consistent and its asserts hold: the entry ends
  // up tried and what was in its way goes back to new.
  lemma MakeTriedKeeps(h: Hashes, m: Man, id: int)
    requires Consistent(h, m) && id in m.info && !m.info[id].fInTried
    ensures CanMakeTried(h, m, id) && Consistent(h, MakeTried(h, m, id))
    ensures id in MakeTried(h, m, id).info && MakeTried(h, m, id).info[id].fInTried
  {
    StripFrame(h, m, id);
    var m1, slot := Strip(h, m, id), TriedSlot(h, m.info[id].service);
    RoomFloats(h, m1, slot, id);
    PromoteLands(h, MakeRoom(h, m1, slot), slot, id);
  }

  lemma MakeTriedIs(h: Hashes, m: Man, id: int)
    requires CanMakeTried(h, m, id)
    ensures var slot := TriedSlot(h, m.info[id].service);
            MakeTried(h, m, id) == Promote(MakeRoom(h, Strip(h, m, id), slot), slot, id)
  {
  }

  lemma MakeTriedTrims(h: Hashes, m: Man, id: int)
    requires Consistent(h, m) && id in m.info && !m.info[id].fInTried && CanMakeTried(h, m, id)
    ensures Trimmed(m.info, MakeTried(h, m, id).info)
  {
    StripFrame(h, m, id);
    var m1, slot := Strip(h, m, id), TriedSlot(h, m.info[id].service);
    MakeRoomTrims(h, m1, slot);
    PromoteTrims(m.info, m1.info, id, MakeRoom(h, m1, slot).info);
  }

  lemma PromoteTrims(info: map<int, Info>, info1: map<int, Info>, id: int, info2: map<int, Info>)
    requires OthersKept(info, id, info1) && id in info1 && info1[id].service == info[id].service
    requires id in info && id in info2 && Trimmed(info1, info2)
    ensures Trimmed(info, info2[id := info2[id].(fInTried := true)])
  {
    forall k | k in info && k != id ensures k in info1 && SameEntry(info[k], info1[k]) { }
  }

  /******* The public operations *******/

  lemma StatsConsistent(h: Hashes, m: Man, id: int, i: Info)
    requires Consistent(h, m) && id in m.info && SameEntry(m.info[id], i) && i.nRandomPos == m.info[id].nRandomPos
    ensures Consistent(h, Put(m, id, i))
  {
    StatsKeep(h, m, id, i);
    IdsSame(m.info, Put(m, id, i).info, {});
  }

  lemma SwapConsistent(h: Hashes, m: Man, p: int, q: int)
    requires Consistent(h, m) && 0 <= p < |m.random| && 0 <= q < |m.random|
    ensures CanSwap(m, p, q) && Consistent(h, SwapRandom(m, p, q))
  {
    SwapLinked(h, m, p, q);
    SwapSame(m, p, q);
    IdsSame(m.info, SwapRandom(m, p, q).info, {});
  }

  // A new entry that is in no slot yet, already counted.
  ghost predicate Pending(h: Hashes, m: Man, id: int) {
    && Linked(h, m) && Counted(m, 0) && Referenced(m.info, {id})
    && id in m.info && !m.info[id].fInTried
  }

  lemma CreatePends(h: Hashes, m: Man, i: Info)
    requires Consistent(h, m) && i.service.ip !in m.addr && i.nRefCount == 0 && !i.fInTried
    ensures var m' := Create(m, i).(nNew := m.nNew + 1);
            Pending(h, m', m.nIdCount) && m'.info[m.nIdCount] == i.(nRandomPos := |m.random|)
  {
    CreateKeeps(h, m, i);
    CreateIds(m.info, m.nIdCount, i.(nRandomPos := |m.random|));
    var m1 := Create(m, i);
    assert Indexed(m1) && Tabled(h, m1);
  }

  lemma InsertClears(h: Hashes, m: Man, s: Slot, id: int)
    requires Linked(h, m) && id in m.info && (s in m.newT ==> m.newT[s] != id)
    ensures CanClear(m, s) && Linked(h, ClearNew(m, s)) && Cleared(m, s, ClearNew(m, s))
    ensures id in ClearNew(m, s).info && SameEntry(m.info[id], ClearNew(m, s).info[id])
    ensures s !in ClearNew(m, s).newT
  {
    ClearNewPossible(h, m, s);
    ClearNewKeeps(h, m, s);
    ClearNewFrame(h, m, s);
  }

  lemma InsertLands(h: Hashes, m: Man, s: Slot, id: int)
    requires Pending(h, m, id) && NewSlotOk(h, m.info, s, id) && m.info[id].nRefCount < NEW_BUCKETS_PER_ADDRESS
    requires s in m.newT ==> m.newT[s] != id
    ensures CanClear(m, s) && id in ClearNew(m, s).info
    ensures Consistent(h, Refer(ClearNew(m, s), s, id))
  {
    InsertClears(h, m, s, id);
    InsertRefs(h, m, s, id, ClearNew(m, s));
  }

  lemma InsertTrims(h: Hashes, m: Man, s: Slot, id: int)
    requires Linked(h, m) && id in m.info && (s in m.newT ==> m.newT[s] != id)
    requires CanClear(m, s) && id in ClearNew(m, s).info
    ensures Trimmed(m.info, Refer(ClearNew(m, s), s, id).info)
  {
    ClearNewFrame(h, m, s);
    if s in m.newT { UnrefKeeps(h, m, s, m.newT[s]); }
    ClearedTrims(m, s, ClearNew(m, s));
  }

  lemma InsertRefs(h: Hashes, m: Man, s: Slot, id: int, m1: Man)
    requires Referenced(m.info, {id}) && Cleared(m, s, m1) && Linked(h, m1) && Counted(m1, 0) && s !in m1.newT
    requires NewSlotOk(h, m1.info, s, id) && m1.info[id].nRefCount < NEW_BUCKETS_PER_ADDRESS
    ensures Consistent(h, Refer(m1, s, id))
  {
    if s in m.newT { OthersReferenced(m.info, m.newT[s], m1.info, {id}); }
    EntryRefs(h, m1, id);
    ReferKeeps(h, m1, s, id);
    RecountIds(m1.info, id, m1.info[id].nRefCount + 1);
  }

  lemma EntryRefs(h: Hashes, m: Man, id: int)
    requires Tabled(h, m) && id in m.info
    ensures m.info[id].nRefCount >= 0
  {
    assert EntryOk(h, m.info[id], id, m.newT, m.triedT);
  }

  lemma DropLands(h: Hashes, m: Man, id: int)
    requires Pending(h, m, id) && m.info[id].nRefCount == 0
    ensures CanDelete(m, id) && Consistent(h, Delete(m, id))
    ensures OthersKept(m.info, id, Delete(m, id).info) && id !in Delete(m, id).info
  {
    DeletePossible(m, id);
    DeleteKeeps(h, m, id);
    DeleteCounts(m, id);
    DeleteOthers(m, id);
    OthersReferenced(m.info, id, Delete(m, id).info, {id});
  }

  // A slot that already holds the entry: nothing pends.
  lemma AlreadyThere(h: Hashes, m: Man, s: Slot, id: int)
    requires Pending(h, m, id) && s in m.newT && m.newT[s] == id
    ensures Consistent(h, m)
  {
    UnrefKeeps(h, m, s, id);
  }

  // A new entry of a consistent manager has a slot: the "no bucket found" exit
  // of Good_ is not reached.
  lemma HasSlot(h: Hashes, m: Man, id: int) returns (s: Slot)
    requires Consistent(h, m) && id in m.info && !m.info[id].fInTried
    ensures s in m.newT && m.newT[s] == id && s.bucket < NEW_BUCKET_COUNT && s == NewSlot(h, m.info[id].service, s.bucket)
  {
    assert EntryOk(h, m.info[id], id, m.newT, m.triedT);
    s :| s in SlotsOf(m.newT, id);
    assert NewSlotOk(h, m.info, s, m.newT[s]);
  }

  // SwapRandom leaves every field of an entry but its place.
  lemma SwapStats(m: Man, p: int, q: int)
    requires CanSwap(m, p, q)
    ensures var m' := SwapRandom(m, p, q);
            && m'.info.Keys == m.info.Keys
            && forall id | id in m.info :: m'.info[id].(nRandomPos := 0) == m.info[id].(nRandomPos := 0)
  {
  }

  /******* What moving entries about leaves alone *******/

  // An entry without what its place in the tables and in vRandom decides.
  function Stats(i: Info): Info {
    i.(nRefCount := 0, fInTried := false, nRandomPos := 0)
  }

  // No entry appears, and what is left of an entry has its address and statistics.
  ghost predicate StatsKept(info: map<int, Info>, info': map<int, Info>) {
    forall k | k in info' :: k in info && Stats(info'[k]) == Stats(info[k])
  }

  lemma StatsTrans(a: map<int, Info>, b: map<int, Info>, c: map<int, Info>)
    requires StatsKept(a, b) && StatsKept(b, c)
    ensures StatsKept(a, c)
  {
  }

  lemma StatsPut(info: map<int, Info>, id: int, i: Info)
    requires id in info && Stats(i) == Stats(info[id])
    ensures StatsKept(info, info[id := i])
  {
  }

  lemma SwapStatsKept(m: Man, p: int, q: int)
    requires CanSwap(m, p, q)
    ensures StatsKept(m.info, SwapRandom(m, p, q).info)
  {
    SwapStats(m, p, q);
    var m' := SwapRandom(m, p, q);
    forall k | k in m'.info ensures k in m.info && Stats(m'.info[k]) == Stats(m.info[k]) {
      assert Stats(m'.info[k]) == Stats(m'.info[k].(nRandomPos := 0)) && Stats(m.info[k]) == Stats(m.info[k].(nRandomPos := 0));
    }
  }

  lemma DeleteStats(m: Man, id: int)
    requires CanDelete(m, id)
    ensures StatsKept(m.info, Delete(m, id).info)
  {
    DeleteIs(m, id);
    SwapStatsKept(m, m.info[id].nRandomPos, |m.random| - 1);
  }

  lemma ClearNewStats(m: Man, s: Slot)
    requires CanClear(m, s)
    ensures StatsKept(m.info, ClearNew(m, s).info)
  {
    if s in m.newT {
      var id := m.newT[s];
      var m1 := Unref(m, s, id);
      StatsPut(m.info, id, m1.info[id]);
      if m.info[id].nRefCount == 1 {
        DeleteStats(m1, id);
        StatsTrans(m.info, m1.info, Delete(m1, id).info);
      }
    }
  }

  lemma {:induction false} StripStats(h: Hashes, m: Man, id: int, n: nat)
    requires id in m.info
    ensures StatsKept(m.info, StripTo(h, m, id, n).info)
  {
    if n > 0 {
      StripStats(h, m, id, n - 1);
      var m1 := StripTo(h, m, id, n - 1);
      StatsPut(m1.info, id, StripOne(h, m1, id, n - 1).info[id]);
      StatsTrans(m.info, m1.info, StripOne(h, m1, id, n - 1).info);
    }
  }

  lemma MakeRoomStats(h: Hashes, m: Man, s: Slot)
    requires CanMakeRoom(h, m, s)
    ensures StatsKept(m.info, MakeRoom(h, m, s).info)
  {
    if s in m.triedT {
      var id := m.triedT[s];
      var m2, home := Evict(m, s, id), HomeSlot(h, m.info[id]);
      var m3 := ClearNew(m2, home);
      StatsPut(m.info, id, m2.info[id]);
      ClearNewStats(m2, home);
      StatsTrans(m.info, m2.info, m3.info);
      StatsPut(m3.info, id, Readmit(m3, home, id).info[id]);
      StatsTrans(m.info, m3.info, Readmit(m3, home, id).info);
    }
  }

  lemma MakeTriedStats(h: Hashes, m: Man, id: int)
    requires CanMakeTried(h, m, id)
    ensures StatsKept(m.info, MakeTried(h, m, id).info)
  {
    MakeTriedIs(h, m, id);
    var slot := TriedSlot(h, m.info[id].service);
    var m1 := Strip(h, m, id);
    var m2 := MakeRoom(h, m1, slot);
    StripStats(h, m, id, NEW_BUCKET_COUNT);
    MakeRoomStats(h, m1, slot);
    StatsTrans(m.info, m1.info, m2.info);
    StatsPut(m2.info, id, Promote(m2, slot, id).info[id]);
    StatsTrans(m.info, m2.info, Promote(m2, slot, id).info);
  }

  lemma InsertStats(m: Man, s: Slot, id: int)
    requires CanClear(m, s) && id in ClearNew(m, s).info
    ensures StatsKept(m.info, Refer(ClearNew(m, s), s, id).info)
  {
    ClearNewStats(m, s);
    var m1 := ClearNew(m, s);
    StatsPut(m1.info, id, Refer(m1, s, id).info[id]);
    StatsTrans(m.info, m1.info, Refer(m1, s, id).info);
  }
}
