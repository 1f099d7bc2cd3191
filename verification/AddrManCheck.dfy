// Check_ of src/addrman.cpp: what it accepts, for any state of the indexes, and that
// a consistent manager fails it only for its times or its key.

module AddrManCheck {
  import opened AddrMan
  import opened AddrManager

  // mapAddr[ip], which is 0 for an address that is not there.
  function Looked(addr: map<NetAddr, int>, ip: NetAddr): int {
    if ip in addr then addr[ip] else 0
  }

  /******* What Check_ accepts *******/

  ghost predicate EntryPasses(m: Man, id: int)
    requires id in m.info
  {
    var i := m.info[id];
    && (if i.fInTried then i.nRefCount == 0 else 1 <= i.nRefCount <= NEW_BUCKETS_PER_ADDRESS)
    && Looked(m.addr, i.service.ip) == id
    && 0 <= i.nRandomPos < |m.random| && m.random[i.nRandomPos] == id
    && TimeOk(i)
  }

  ghost predicate EntriesPass(m: Man) {
    forall id | id in m.info :: EntryPasses(m, id)
  }

  // Every slot of the tried table is the computed one of a tried entry, and every tried
  // entry has it.
  ghost predicate TriedSlotsOk(h: Hashes, m: Man) {
    forall s | s in m.triedT :: TriedSlotOk(h, m.info, s, m.triedT[s])
  }

  ghost predicate TriedPasses(h: Hashes, m: Man) {
    TriedSlotsOk(h, m) && TriedIds(m.info) <= m.triedT.Values
  }

  // Every slot of the new table is at the computed position of a new entry, and every
  // new entry has as many as it counts.
  ghost predicate NewSlotsOk(h: Hashes, m: Man) {
    forall s | s in m.newT :: NewSlotOk(h, m.info, s, m.newT[s])
  }

  ghost predicate RefsExact(m: Man) {
    forall id | id in NewIds(m.info) :: m.info[id].nRefCount == |SlotsOf(m.newT, id)|
  }

  ghost predicate TablesPass(h: Hashes, m: Man) {
    TriedPasses(h, m) && NewSlotsOk(h, m) && RefsExact(m)
  }

  ghost predicate CountsPass(m: Man) {
    m.nTried == |TriedIds(m.info)| && m.nNew == |NewIds(m.info)|
  }

  // What is tested before the tables.
  ghost predicate ListsPass(m: Man) {
    |m.random| == m.nTried + m.nNew && EntriesPass(m) && CountsPass(m)
  }

  ghost predicate Passes(h: Hashes, m: Man, keyIsNull: bool) {
    ListsPass(m) && TablesPass(h, m) && !keyIsNull
  }

  /******* A consistent manager *******/

  lemma {:induction false} DistinctSize(s: seq<int>)
    requires forall j, k | 0 <= j < k < |s| :: s[j] != s[k]
    ensures |set x | x in s| == |s|
  {
    if s != [] {
      var n := |s| - 1;
      DistinctSize(s[..n]);
      assert s == s[..n] + [s[n]];
      assert (set x | x in s) == (set x | x in s[..n]) + {s[n]};
    }
  }

  // vRandom lists every entry once.
  lemma RandomSize(m: Man)
    requires RandomOk(m.info, m.random)
    ensures |m.random| == |TriedIds(m.info)| + |NewIds(m.info)|
  {
    forall j, k | 0 <= j < k < |m.random| ensures m.random[j] != m.random[k] {
      assert m.info[m.random[j]].nRandomPos == j && m.info[m.random[k]].nRandomPos == k;
    }
    DistinctSize(m.random);
    var all := set x | x in m.random;
    forall id | id in m.info ensures id in m.random { assert m.random[m.info[id].nRandomPos] == id; }
    assert all == TriedIds(m.info) + NewIds(m.info);
  }

  lemma ConsistentEntry(h: Hashes, m: Man, id: int)
    requires Consistent(h, m) && id in m.info
    ensures EntryPasses(m, id) <==> TimeOk(m.info[id])
    ensures m.info[id].nRefCount == |SlotsOf(m.newT, id)|
    ensures m.info[id].fInTried ==> id in m.triedT.Values
  {
    assert EntryOk(h, m.info[id], id, m.newT, m.triedT);
  }

  // The whole of Check_ but the times is in the invariant.
  lemma ConsistentPasses(h: Hashes, m: Man, keyIsNull: bool)
    requires Consistent(h, m)
    ensures Passes(h, m, keyIsNull) <==> TimesOk(m.info) && !keyIsNull
  {
    RandomSize(m);
    forall id | id in m.info
      ensures EntryPasses(m, id) <==> TimeOk(m.info[id])
      ensures m.info[id].nRefCount == |SlotsOf(m.newT, id)| && (m.info[id].fInTried ==> id in m.triedT.Values)
    {
      ConsistentEntry(h, m, id);
    }
    if EntriesPass(m) {
      forall id | id in m.info ensures TimeOk(m.info[id]) { assert EntryPasses(m, id); }
    }
    if TimesOk(m.info) {
      forall id | id in m.info ensures EntryPasses(m, id) { assert TimeOk(m.info[id]); }
    }
    forall id | id in TriedIds(m.info) ensures id in m.triedT.Values { assert m.info[id].fInTried; }
  }

  /******* Scanning a table *******/

  predicate Before(s: Slot, n: nat, i: nat) {
    s.bucket < n || (s.bucket == n && s.pos < i)
  }

  // The occupied slots up to position i of bucket n.
  ghost function Scanned(t: Table, n: nat, i: nat): set<Slot> {
    set s | s in t && Before(s, n, i)
  }

  ghost predicate Sized(t: Table, buckets: nat) {
    forall s | s in t :: s.bucket < buckets && s.pos < BUCKET_SIZE
  }

  lemma ScanNext(t: Table, n: nat, i: nat)
    ensures Slot(n, i) !in Scanned(t, n, i)
    ensures Scanned(t, n, i + 1) == Scanned(t, n, i) + (if Slot(n, i) in t then {Slot(n, i)} else {})
  {
  }

  lemma ScanRow(t: Table, buckets: nat, n: nat)
    requires Sized(t, buckets)
    ensures Scanned(t, n, BUCKET_SIZE) == Scanned(t, n + 1, 0)
  {
  }

  lemma ScanAll(t: Table, buckets: nat)
    requires Sized(t, buckets)
    ensures Scanned(t, buckets, 0) == t.Keys
  {
  }

  // The ids in a set of slots, and the slots among them that hold id.
  ghost function Held(t: Table, seen: set<Slot>): set<int> {
    set s | s in seen && s in t :: t[s]
  }

  ghost function Holding(t: Table, seen: set<Slot>, id: int): set<Slot> {
    set s | s in seen && s in t && t[s] == id
  }

  /******* The tried table *******/

  // The slots seen are right, and what is left are the tried entries not seen.
  ghost predicate TriedTo(h: Hashes, m: Man, seen: set<Slot>, left: set<int>) {
    && (forall s | s in seen && s in m.triedT :: TriedSlotOk(h, m.info, s, m.triedT[s]))
    && left == TriedIds(m.info) - Held(m.triedT, seen)
  }

  // An id that is not left is no tried entry, or has been seen in its slot.
  lemma NotLeft(h: Hashes, m: Man, seen: set<Slot>, left: set<int>, s: Slot)
    requires TriedTo(h, m, seen, left) && s in m.triedT && s !in seen && m.triedT[s] !in left
    ensures !TriedSlotsOk(h, m)
  {
  }

  lemma TriedToNext(h: Hashes, m: Man, seen: set<Slot>, left: set<int>, s: Slot)
    requires TriedTo(h, m, seen, left) && s in m.triedT && TriedSlotOk(h, m.info, s, m.triedT[s])
    ensures TriedTo(h, m, seen + {s}, left - {m.triedT[s]})
  {
    assert Held(m.triedT, seen + {s}) == Held(m.triedT, seen) + {m.triedT[s]};
  }

  lemma TriedToEnd(h: Hashes, m: Man, left: set<int>)
    requires TriedTo(h, m, m.triedT.Keys, left)
    ensures TriedSlotsOk(h, m) && (left == {} <==> TriedPasses(h, m))
  {
    assert Held(m.triedT, m.triedT.Keys) == m.triedT.Values;
    if left == {} {
      forall id | id in TriedIds(m.info) ensures id in m.triedT.Values { assert id !in left; }
    }
  }

  method CheckTriedSlot(a: AddrManager, n: nat, i: nat, left0: set<int>, ghost seen: set<Slot>) returns (r: int, left: set<int>)
    requires a.Shape() && n < TRIED_BUCKET_COUNT && i < BUCKET_SIZE
    requires TriedTo(a.hashes, a.Abs(), seen, left0) && Slot(n, i) !in seen
    ensures r != 0 ==> !TriedSlotsOk(a.hashes, a.Abs())
    ensures r == 0 ==> TriedTo(a.hashes, a.Abs(), seen + (if Slot(n, i) in TableOf(a.vvTried) then {Slot(n, i)} else {}), left)
  {
    r, left := 0, left0;
    ghost var m := a.Abs();
    var id := Read(a.vvTried, n, i);
    if id != -1 {
      if id !in left {
        NotLeft(a.hashes, m, seen, left, Slot(n, i));
        return -11, left;
      }
      if GetTriedBucket(a.hashes, a.mapInfo[id].service) != n {
        assert !TriedSlotOk(a.hashes, m.info, Slot(n, i), id);
        return -17, left;
      }
      if GetBucketPosition(a.hashes, a.mapInfo[id].service, false, n) != i {
        assert !TriedSlotOk(a.hashes, m.info, Slot(n, i), id);
        return -18, left;
      }
      TriedToNext(a.hashes, m, seen, left, Slot(n, i));
      left := left - {id};
    } else {
      assert seen + {} == seen;
    }
  }

  method CheckTried(a: AddrManager, setTried: set<int>) returns (r: int, left: set<int>)
    requires a.Shape() && setTried == TriedIds(a.mapInfo)
    ensures r != 0 ==> !TriedSlotsOk(a.hashes, a.Abs())
    ensures r == 0 ==> (left == {} <==> TriedPasses(a.hashes, a.Abs()))
  {
    ghost var m := a.Abs();
    r, left := 0, setTried;
    for n := 0 to TRIED_BUCKET_COUNT
      invariant TriedTo(a.hashes, m, Scanned(m.triedT, n, 0), left)
    {
      for i := 0 to BUCKET_SIZE
        invariant TriedTo(a.hashes, m, Scanned(m.triedT, n, i), left)
      {
        ScanNext(m.triedT, n, i);
        r, left := CheckTriedSlot(a, n, i, left, Scanned(m.triedT, n, i));
        if r != 0 {
          return;
        }
      }
      ScanRow(m.triedT, TRIED_BUCKET_COUNT, n);
    }
    ScanAll(m.triedT, TRIED_BUCKET_COUNT);
    TriedToEnd(a.hashes, m, left);
    r := 0;
  }

  /******* The new table *******/

  // The slots seen are right, and what is left of an entry's count is what is not seen.
  ghost predicate CountLeft(m: Man, seen: set<Slot>, left: map<int, int>, id: int) {
    if id !in NewIds(m.info) then id !in left
    else
      var rest := m.info[id].nRefCount - |Holding(m.newT, seen, id)|;
      rest >= 0 && (if rest == 0 then id !in left else id in left && left[id] == rest)
  }

  ghost predicate NewTo(h: Hashes, m: Man, seen: set<Slot>, left: map<int, int>) {
    && (forall s | s in seen && s in m.newT :: NewSlotOk(h, m.info, s, m.newT[s]))
    && (forall id :: CountLeft(m, seen, left, id))
  }

  lemma HoldingMore(t: Table, seen: set<Slot>, s: Slot, id: int)
    requires s in t && s !in seen
    ensures Holding(t, seen + {s}, id) == Holding(t, seen, id) + (if t[s] == id then {s} else {})
    ensures |Holding(t, seen + {s}, id)| == |Holding(t, seen, id)| + (if t[s] == id then 1 else 0)
  {
    assert Holding(t, seen + {s}, id) == Holding(t, seen, id) + (if t[s] == id then {s} else {});
  }

  lemma HoldingFew(t: Table, seen: set<Slot>, id: int)
    ensures |Holding(t, seen, id)| <= |SlotsOf(t, id)|
  {
    SubsetSize(Holding(t, seen, id), SlotsOf(t, id));
  }

  lemma {:induction false} SubsetSize(a: set<Slot>, b: set<Slot>)
    requires a <= b
    ensures |a| <= |b|
  {
    if a != {} {
      var s :| s in a;
      SubsetSize(a - {s}, b - {s});
    }
  }

  // An id with nothing left is no new entry, or has more slots than it counts.
  lemma NothingLeft(h: Hashes, m: Man, seen: set<Slot>, left: map<int, int>, s: Slot)
    requires NewTo(h, m, seen, left) && s in m.newT && s !in seen && m.newT[s] !in left
    ensures !(NewSlotsOk(h, m) && RefsExact(m))
  {
    var id := m.newT[s];
    assert CountLeft(m, seen, left, id);
    if id in NewIds(m.info) {
      HoldingMore(m.newT, seen, s, id);
      HoldingFew(m.newT, seen + {s}, id);
    } else {
      assert !NewSlotOk(h, m.info, s, id);
    }
  }

  // One slot of an entry with something left is taken off its count.
  ghost function CountedDown(left: map<int, int>, id: int): map<int, int>
    requires id in left
  {
    if left[id] == 1 then left - {id} else left[id := left[id] - 1]
  }

  lemma CountNext(m: Man, seen: set<Slot>, left: map<int, int>, s: Slot, id: int)
    requires s in m.newT && s !in seen && m.newT[s] in left && CountLeft(m, seen, left, id)
    ensures CountLeft(m, seen + {s}, CountedDown(left, m.newT[s]), id)
  {
    HoldingMore(m.newT, seen, s, id);
  }

  lemma NewToNext(h: Hashes, m: Man, seen: set<Slot>, left: map<int, int>, s: Slot)
    requires NewTo(h, m, seen, left) && s in m.newT && s !in seen && m.newT[s] in left
    requires NewSlotOk(h, m.info, s, m.newT[s])
    ensures NewTo(h, m, seen + {s}, CountedDown(left, m.newT[s]))
  {
    var left' := CountedDown(left, m.newT[s]);
    forall id ensures CountLeft(m, seen + {s}, left', id) {
      assert CountLeft(m, seen, left, id);
      CountNext(m, seen, left, s, id);
    }
  }

  lemma NewToEnd(h: Hashes, m: Man, left: map<int, int>)
    requires NewTo(h, m, m.newT.Keys, left)
    ensures NewSlotsOk(h, m) && (left == map[] <==> RefsExact(m))
  {
    forall id ensures Holding(m.newT, m.newT.Keys, id) == SlotsOf(m.newT, id) && CountLeft(m, m.newT.Keys, left, id) {
    }
    if RefsExact(m) {
      forall id ensures id !in left { assert CountLeft(m, m.newT.Keys, left, id); }
      assert left == map[];
    }
  }

  method CheckNewSlot(a: AddrManager, n: nat, i: nat, left0: map<int, int>, ghost seen: set<Slot>)
    returns (r: int, left: map<int, int>)
    requires a.Shape() && n < NEW_BUCKET_COUNT && i < BUCKET_SIZE
    requires NewTo(a.hashes, a.Abs(), seen, left0) && Slot(n, i) !in seen
    ensures r != 0 ==> !(NewSlotsOk(a.hashes, a.Abs()) && RefsExact(a.Abs()))
    ensures r == 0 ==> NewTo(a.hashes, a.Abs(), seen + (if Slot(n, i) in TableOf(a.vvNew) then {Slot(n, i)} else {}), left)
  {
    r, left := 0, left0;
    ghost var m := a.Abs();
    var id := Read(a.vvNew, n, i);
    if id != -1 {
      if id !in left {
        NothingLeft(a.hashes, m, seen, left, Slot(n, i));
        return -12, left;
      }
      assert CountLeft(m, seen, left, id);
      if GetBucketPosition(a.hashes, a.mapInfo[id].service, true, n) != i {
        assert !NewSlotOk(a.hashes, m.info, Slot(n, i), id);
        return -19, left;
      }
      NewToNext(a.hashes, m, seen, left, Slot(n, i));
      left := if left[id] == 1 then left - {id} else left[id := left[id] - 1];
    } else {
      assert seen + {} == seen;
    }
  }

  method CheckNew(a: AddrManager, mapNew: map<int, int>) returns (r: int, left: map<int, int>)
    requires a.Shape() && NewTo(a.hashes, a.Abs(), {}, mapNew)
    ensures r != 0 ==> !(NewSlotsOk(a.hashes, a.Abs()) && RefsExact(a.Abs()))
    ensures r == 0 ==> NewSlotsOk(a.hashes, a.Abs()) && (left == map[] <==> RefsExact(a.Abs()))
  {
    ghost var m := a.Abs();
    r, left := 0, mapNew;
    assert Scanned(m.newT, 0, 0) == {};
    for n := 0 to NEW_BUCKET_COUNT
      invariant NewTo(a.hashes, m, Scanned(m.newT, n, 0), left)
    {
      for i := 0 to BUCKET_SIZE
        invariant NewTo(a.hashes, m, Scanned(m.newT, n, i), left)
      {
        ScanNext(m.newT, n, i);
        r, left := CheckNewSlot(a, n, i, left, Scanned(m.newT, n, i));
        if r != 0 {
          return;
        }
      }
      ScanRow(m.newT, NEW_BUCKET_COUNT, n);
    }
    ScanAll(m.newT, NEW_BUCKET_COUNT);
    NewToEnd(a.hashes, m, left);
    r := 0;
  }

  /******* The entries *******/

  // One entry's code, 0 if nothing is wrong with it.
  method CheckEntry(a: AddrManager, n: int) returns (r: int)
    requires n in a.mapInfo
    ensures r == 0 <==> EntryPasses(a.Abs(), n)
  {
    var info := a.mapInfo[n];
    if info.fInTried {
      if info.nLastSuccess == 0 {
        return -1;
      }
      if info.nRefCount != 0 {
        return -2;
      }
    } else {
      if info.nRefCount < 0 || info.nRefCount > NEW_BUCKETS_PER_ADDRESS {
        return -3;
      }
      if info.nRefCount == 0 {
        return -4;
      }
    }
    if Looked(a.mapAddr, info.service.ip) != n {
      return -5;
    }
    if info.nRandomPos < 0 || info.nRandomPos >= |a.vRandom| || a.vRandom[info.nRandomPos] != n {
      return -14;
    }
    if info.nLastTry < 0 {
      return -6;
    }
    if info.nLastSuccess < 0 {
      return -8;
    }
    return 0;
  }

  // The tried entries and the counts of the new ones, of the ids in `done`.
  ghost predicate Sorted(info: map<int, Info>, done: set<int>, setTried: set<int>, mapNew: map<int, int>) {
    && setTried == TriedIds(info) * done && mapNew.Keys == NewIds(info) * done
    && forall id | id in mapNew :: mapNew[id] == info[id].nRefCount
  }

  lemma HasKey(todo: map<int, Info>)
    requires todo != map[]
    ensures exists n :: n in todo
  {
    assert (forall n :: n !in todo) ==> todo == map[];
  }

  method CheckEntries(a: AddrManager) returns (r: int, setTried: set<int>, mapNew: map<int, int>)
    ensures r == 0 <==> EntriesPass(a.Abs())
    ensures r == 0 ==> Sorted(a.mapInfo, a.mapInfo.Keys, setTried, mapNew)
  {
    ghost var m := a.Abs();
    r, setTried, mapNew := 0, {}, map[];
    var todo := a.mapInfo;
    while todo != map[]
      invariant todo.Keys <= m.info.Keys && Sorted(m.info, m.info.Keys - todo.Keys, setTried, mapNew)
      invariant forall id | id in m.info && id !in todo :: EntryPasses(m, id)
      decreases todo.Keys
    {
      HasKey(todo);
      var n :| n in todo;
      r := CheckEntry(a, n);
      if r != 0 {
        return;
      }
      if a.mapInfo[n].fInTried {
        setTried := setTried + {n};
      } else {
        mapNew := mapNew[n := a.mapInfo[n].nRefCount];
      }
      todo := todo - {n};
    }
    r := 0;
  }

  lemma SortedSizes(info: map<int, Info>, setTried: set<int>, mapNew: map<int, int>)
    requires Sorted(info, info.Keys, setTried, mapNew)
    ensures setTried == TriedIds(info) && |mapNew| == |NewIds(info)|
  {
    assert NewIds(info) * info.Keys == NewIds(info);
    assert |mapNew| == |mapNew.Keys|;
  }

  lemma NothingSeen(h: Hashes, m: Man, setTried: set<int>, mapNew: map<int, int>)
    requires EntriesPass(m) && Sorted(m.info, m.info.Keys, setTried, mapNew)
    ensures NewTo(h, m, {}, mapNew)
  {
    forall id ensures CountLeft(m, {}, mapNew, id) {
      assert Holding(m.newT, {}, id) == {};
      if id in NewIds(m.info) { assert EntryPasses(m, id); }
    }
  }

  // Both scans, and that nothing is left after them.
  method CheckTables(a: AddrManager, setTried: set<int>, mapNew: map<int, int>) returns (r: int)
    requires a.Shape() && EntriesPass(a.Abs()) && Sorted(a.mapInfo, a.mapInfo.Keys, setTried, mapNew)
    ensures r == 0 <==> TablesPass(a.hashes, a.Abs())
  {
    SortedSizes(a.mapInfo, setTried, mapNew);
    NothingSeen(a.hashes, a.Abs(), setTried, mapNew);
    var triedLeft, newLeft;
    r, triedLeft := CheckTried(a, setTried);
    if r != 0 {
      return;
    }
    r, newLeft := CheckNew(a, mapNew);
    if r != 0 {
      return;
    }
    if triedLeft != {} {
      return -13;
    }
    if newLeft != map[] {
      return -15;
    }
    return 0;
  }

  method CheckLists(a: AddrManager) returns (r: int, setTried: set<int>, mapNew: map<int, int>)
    ensures r == 0 <==> ListsPass(a.Abs())
    ensures r != 0 || Sorted(a.mapInfo, a.mapInfo.Keys, setTried, mapNew)
  {
    if |a.vRandom| != a.nTried + a.nNew {
      return -7, {}, map[];
    }
    r, setTried, mapNew := CheckEntries(a);
    if r != 0 {
      return;
    }
    SortedSizes(a.mapInfo, setTried, mapNew);
    if |setTried| != a.nTried {
      return -9, {}, map[];
    }
    if |mapNew| != a.nNew {
      return -10, {}, map[];
    }
  }

  // Check_: it returns 0 for exactly the states it is meant to accept.
  method Check(a: AddrManager, keyIsNull: bool) returns (r: int)
    requires a.Shape()
    ensures r == 0 <==> Passes(a.hashes, a.Abs(), keyIsNull)
  {
    var setTried, mapNew;
    r, setTried, mapNew := CheckLists(a);
    if r != 0 {
      return;
    }
    r := CheckTables(a, setTried, mapNew);
    if r != 0 {
      return;
    }
    if keyIsNull {
      return -16;
    }
    return 0;
  }

  // A run that it finds fault with: the first success is reported at time 0.
  method FailingRun(hashes: Hashes, routable: NetAddr -> bool, address: Address, source: NetAddr, penalty: int, now: int)
    returns (m: AddrManager, r: int)
    requires routable(address.service.ip)
    ensures m.Valid() && r != 0
  {
    m := new AddrManager(hashes, routable);
    var _ := m.Add(address, source, penalty, now);
    ghost var id := m.mapAddr[address.service.ip];
    m.Good(address.service, 0);
    assert !TimeOk(m.mapInfo[id]);
    r := Check(m, false);
    ConsistentPasses(m.hashes, m.Abs(), false);
  }

  // After any run from a new manager Check_ finds nothing wrong but times, and nothing at
  // all if the clock has started.
  method RunAndCheck(hashes: Hashes, routable: NetAddr -> bool, ops: seq<Op>, keyIsNull: bool) returns (m: AddrManager, r: int)
    ensures m.Valid() && (r == 0 <==> TimesOk(m.mapInfo) && !keyIsNull)
    ensures (forall i | 0 <= i < |ops| :: Timely(ops[i])) && !keyIsNull ==> r == 0
  {
    m := Run(hashes, routable, ops);
    r := Check(m, keyIsNull);
    ConsistentPasses(m.hashes, m.Abs(), keyIsNull);
  }
}
