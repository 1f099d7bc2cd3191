// Serialize of CAddrMan (src/addrman.h), and that what is written can be read back: a
// list of the new entries, a list of the tried ones and, for each new bucket, the list
// of entries in it.

module AddrManSerial {
  import opened AddrMan
  import opened AddrManLoading
  import opened AddrManStream
  import opened AddrManReading

  /******* Enumerating entries and slots in order *******/

  predicate Wanted(i: Info, tried: bool) {
    if tried then i.fInTried else i.nRefCount != 0
  }

  // The ids below n of the entries in one of the tables, in increasing order.
  function IdsBelow(info: map<int, Info>, tried: bool, n: int): seq<int> {
    if n <= 0 then []
    else IdsBelow(info, tried, n - 1) + (if n - 1 in info && Wanted(info[n - 1], tried) then [n - 1] else [])
  }

  // The positions below n of bucket b that are occupied, in increasing order.
  function PosBelow(t: Table, b: nat, n: nat): seq<nat> {
    if n == 0 then []
    else PosBelow(t, b, n - 1) + (if Slot(b, n - 1) in t then [n - 1] else [])
  }

  lemma {:induction false} IdsBelowAre(info: map<int, Info>, tried: bool, n: int)
    ensures var ids := IdsBelow(info, tried, n);
            && (forall id :: id in ids <==> 0 <= id < n && id in info && Wanted(info[id], tried))
            && Increasing(ids)
  {
    if n > 0 {
      IdsBelowAre(info, tried, n - 1);
      var below := IdsBelow(info, tried, n - 1);
      assert forall j | 0 <= j < |below| :: below[j] in below;
    }
  }

  lemma {:induction false} PosBelowAre(t: Table, b: nat, n: nat)
    ensures var ps := PosBelow(t, b, n);
            && (forall p: nat :: p in ps <==> p < n && Slot(b, p) in t)
            && (forall j, k | 0 <= j < k < |ps| :: ps[j] < ps[k])
  {
    if n > 0 {
      PosBelowAre(t, b, n - 1);
      var below := PosBelow(t, b, n - 1);
      assert forall j | 0 <= j < |below| :: below[j] in below;
    }
  }

  lemma {:induction false} IdsBelowPrefix(info: map<int, Info>, tried: bool, n: int, k: int)
    requires n <= k
    ensures IdsBelow(info, tried, n) <= IdsBelow(info, tried, k)
    decreases k - n
  {
    if n < k { IdsBelowPrefix(info, tried, n, k - 1); }
  }

  // An entry's number is how many wanted ids lie below its own.
  lemma RankOf(info: map<int, Info>, tried: bool, id: nat, n: int)
    requires id < n && id in info && Wanted(info[id], tried)
    ensures var r := |IdsBelow(info, tried, id)|;
            r < |IdsBelow(info, tried, n)| && IdsBelow(info, tried, n)[r] == id
  {
    IdsBelowPrefix(info, tried, id + 1, n);
    assert IdsBelow(info, tried, id + 1)[|IdsBelow(info, tried, id)|] == id;
  }

  /******* Cardinalities *******/

  ghost function AllSlots(buckets: nat, size: nat): set<Slot> {
    set b: nat, p: nat | b < buckets && p < size :: Slot(b, p)
  }

  ghost function RowSlots(b: nat, size: nat): set<Slot> {
    set p: nat | p < size :: Slot(b, p)
  }

  lemma {:induction false} Row(b: nat, size: nat)
    ensures |RowSlots(b, size)| == size
  {
    if size == 0 {
      assert RowSlots(b, 0) == {};
    } else {
      Row(b, size - 1);
      assert RowSlots(b, size) == RowSlots(b, size - 1) + {Slot(b, size - 1)};
    }
  }

  lemma {:induction false} AllSlotsCount(buckets: nat, size: nat)
    ensures |AllSlots(buckets, size)| == buckets * size
  {
    if buckets == 0 {
      assert AllSlots(0, size) == {};
    } else {
      AllSlotsCount(buckets - 1, size);
      Row(buckets - 1, size);
      var row := RowSlots(buckets - 1, size);
      assert AllSlots(buckets, size) == AllSlots(buckets - 1, size) + row;
      assert AllSlots(buckets - 1, size) !! row;
      assert (buckets - 1) * size + size == buckets * size;
    }
  }

  // Entries that each hold a slot are no more than the slots.
  lemma {:induction false} HoldersFit(ids: seq<int>, t: Table, slots: set<Slot>)
    requires Increasing(ids) && t.Keys <= slots
    requires forall k | 0 <= k < |ids| :: Holds(t, ids[k])
    ensures |ids| <= |slots|
  {
    if ids != [] {
      var last, rest := ids[|ids| - 1], ids[..|ids| - 1];
      var s :| s in t && t[s] == last;
      forall k | 0 <= k < |rest| ensures Holds(t - {s}, rest[k]) {
        assert Holds(t, ids[k]) && ids[k] < last;
        var x :| x in t && t[x] == ids[k];
        assert x in t - {s} && (t - {s})[x] == ids[k];
      }
      HoldersFit(rest, t - {s}, slots - {s});
    }
  }

  ghost predicate Holds(t: Table, id: int) {
    exists s :: s in t && t[s] == id
  }

  /******* Serialize *******/

  function NewSeq(m: Man): seq<int> { IdsBelow(m.info, false, m.nIdCount) }
  function TriedSeq(m: Man): seq<int> { IdsBelow(m.info, true, m.nIdCount) }

  // Non-tried is referenced, so the two orders list every entry once.
  lemma WantedNew(h: Hashes, m: Man)
    requires Consistent(h, m)
    ensures forall id | id in m.info :: Wanted(m.info[id], false) <==> !m.info[id].fInTried
    ensures forall id | id in m.info :: 0 <= id < m.nIdCount
  {
    forall id | id in m.info ensures Wanted(m.info[id], false) <==> !m.info[id].fInTried {
      assert EntryOk(h, m.info[id], id, m.newT, m.triedT);
    }
  }

  lemma SeqsAreIds(m: Man)
    requires forall id | id in m.info :: Wanted(m.info[id], false) <==> !m.info[id].fInTried
    requires forall id | id in m.info :: 0 <= id < m.nIdCount
    ensures |NewSeq(m)| == |NewIds(m.info)| && |TriedSeq(m)| == |TriedIds(m.info)|
  {
    IdsBelowAre(m.info, false, m.nIdCount);
    IdsBelowAre(m.info, true, m.nIdCount);
    SetOfSeq(NewSeq(m));
    SetOfSeq(TriedSeq(m));
    forall id: int
      ensures id in Elements(NewSeq(m)) <==> id in NewIds(m.info)
      ensures id in Elements(TriedSeq(m)) <==> id in TriedIds(m.info)
    {
      assert id in Elements(NewSeq(m)) <==> id in NewSeq(m);
      assert id in Elements(TriedSeq(m)) <==> id in TriedSeq(m);
      assert id in m.info ==> (Wanted(m.info[id], true) <==> m.info[id].fInTried);
    }
    assert Elements(NewSeq(m)) == NewIds(m.info);
    assert Elements(TriedSeq(m)) == TriedIds(m.info);
  }

  lemma CountsMatch(h: Hashes, m: Man)
    requires Consistent(h, m)
    ensures |NewSeq(m)| == m.nNew && |TriedSeq(m)| == m.nTried
  {
    WantedNew(h, m);
    SeqsAreIds(m);
  }

  function Saves(info: map<int, Info>, ids: seq<int>): (r: seq<Saved>)
    requires forall k | 0 <= k < |ids| :: ids[k] in info
    ensures |r| == |ids|
  {
    seq(|ids|, k requires 0 <= k < |ids| => Save(info[ids[k]]))
  }

  // A bucket is written as the numbers, in the order new entries are written,
  // of the entries in its occupied slots.
  ghost predicate BucketOk(m: Man, b: nat, list: seq<int>) {
    var ps := PosBelow(m.newT, b, BUCKET_SIZE);
    && |list| == |ps|
    && forall q | 0 <= q < |ps| :: NumberOk(m, Slot(b, ps[q]), list[q])
  }

  ghost predicate NumberOk(m: Man, s: Slot, r: int) {
    0 <= r < |NewSeq(m)| && s in m.newT && NewSeq(m)[r] == m.newT[s]
  }

  ghost predicate Encodes(h: Hashes, m: Man, st: Stream) {
    && st.nVersion == 1 && st.nKeySize == 32 && st.nKey == h && st.nUBuckets == FlipBit30(NEW_BUCKET_COUNT)
    && st.nNew == m.nNew && st.nTried == m.nTried
    && st.news == SavesBelow(m.info, false, m.nIdCount) && st.trieds == SavesBelow(m.info, true, m.nIdCount)
    && |st.buckets| == NEW_BUCKET_COUNT
    && forall b: nat | b < NEW_BUCKET_COUNT :: BucketOk(m, b, st.buckets[b])
  }

  lemma SeqKnown(info: map<int, Info>, tried: bool, n: int)
    ensures forall k | 0 <= k < |IdsBelow(info, tried, n)| :: IdsBelow(info, tried, n)[k] in info
  {
    IdsBelowAre(info, tried, n);
    var ids := IdsBelow(info, tried, n);
    assert forall k | 0 <= k < |ids| :: ids[k] in ids;
  }

  // The entries below n as they are written.
  function SavesBelow(info: map<int, Info>, tried: bool, n: int): seq<Saved> {
    SeqKnown(info, tried, n);
    Saves(info, IdsBelow(info, tried, n))
  }

  lemma SavesStep(info: map<int, Info>, tried: bool, n: nat)
    ensures SavesBelow(info, tried, n + 1) == SavesBelow(info, tried, n) +
            (if n in info && Wanted(info[n], tried) then [Save(info[n])] else [])
  {
  }

  // The loop over mapInfo that writes one table's entries; `numbers` is
  // mapUnkIds, and the assert is the source's check of its counter.
  method WriteEntries(m: Man, tried: bool, limit: int) returns (out: seq<Saved>, numbers: map<int, int>)
    requires |IdsBelow(m.info, tried, m.nIdCount)| == limit && m.nIdCount >= 0
    ensures out == SavesBelow(m.info, tried, m.nIdCount)
    ensures forall id: nat | id in m.info && id < m.nIdCount :: id in numbers && numbers[id] == |IdsBelow(m.info, tried, id)|
  {
    out, numbers := [], map[];
    for n := 0 to m.nIdCount
      invariant out == SavesBelow(m.info, tried, n)
      invariant forall id: nat | id in m.info && id < n :: id in numbers && numbers[id] == |IdsBelow(m.info, tried, id)|
    {
      SavesStep(m.info, tried, n);
      if n in m.info {
        numbers := numbers[n := |out|];
        if Wanted(m.info[n], tried) {
          IdsBelowPrefix(m.info, tried, n + 1, m.nIdCount);
          assert |out| != limit;
          out := out + [Save(m.info[n])];
        }
      }
    }
  }

  // mapUnkIds numbers the entry of every occupied slot as it was written.
  ghost predicate Numbered(m: Man, numbers: map<int, int>) {
    forall s | s in m.newT :: m.newT[s] in numbers && NumberOk(m, s, numbers[m.newT[s]])
  }

  lemma SlotNumber(h: Hashes, m: Man, s: Slot)
    requires Consistent(h, m) && s in m.newT
    ensures m.newT[s] in m.info && m.newT[s] >= 0 && NumberOk(m, s, |IdsBelow(m.info, false, m.newT[s])|)
  {
    var id := m.newT[s];
    UnrefKeeps(h, m, s, id);
    assert id in m.info && 0 <= id < m.nIdCount;
    RankOf(m.info, false, id, m.nIdCount);
  }

  lemma AllNumbered(h: Hashes, m: Man, numbers: map<int, int>)
    requires Consistent(h, m)
    requires forall id: nat | id in m.info :: id in numbers && numbers[id] == |IdsBelow(m.info, false, id)|
    ensures Numbered(m, numbers)
  {
    forall s | s in m.newT ensures m.newT[s] in numbers && NumberOk(m, s, numbers[m.newT[s]]) {
      SlotNumber(h, m, s);
      var id: nat := m.newT[s];
      assert id in m.info;
    }
  }

  // The inner loop over the slots of a bucket.
  method WriteBucket(m: Man, b: nat, numbers: map<int, int>) returns (list: seq<int>)
    requires Numbered(m, numbers)
    ensures BucketOk(m, b, list)
  {
    list := [];
    for p := 0 to BUCKET_SIZE
      invariant |list| == |PosBelow(m.newT, b, p)|
      invariant forall q | 0 <= q < |list| :: NumberOk(m, Slot(b, PosBelow(m.newT, b, p)[q]), list[q])
    {
      var s := Slot(b, p);
      if s in m.newT {
        list := list + [numbers[m.newT[s]]];
      }
    }
  }

  method WriteBuckets(m: Man, numbers: map<int, int>) returns (buckets: seq<seq<int>>)
    requires Numbered(m, numbers)
    ensures |buckets| == NEW_BUCKET_COUNT && forall b: nat | b < NEW_BUCKET_COUNT :: BucketOk(m, b, buckets[b])
  {
    buckets := [];
    for b := 0 to NEW_BUCKET_COUNT
      invariant |buckets| == b && forall c: nat | c < b :: BucketOk(m, c, buckets[c])
    {
      var list := WriteBucket(m, b, numbers);
      buckets := buckets + [list];
    }
  }

  method Serialize(h: Hashes, m: Man) returns (st: Stream)
    requires Consistent(h, m)
    ensures Encodes(h, m, st)
  {
    CountsMatch(h, m);
    WantedNew(h, m);
    var news, numbers := WriteEntries(m, false, m.nNew);
    var trieds, _ := WriteEntries(m, true, m.nTried);
    AllNumbered(h, m, numbers);
    var buckets := WriteBuckets(m, numbers);
    st := Stream(1, 32, h, m.nNew, m.nTried, FlipBit30(NEW_BUCKET_COUNT), news, trieds, buckets);
  }

  /******* The renaming *******/

  // Entry k of the manager read back is entry All(m)[k] of the one written.
  function All(m: Man): seq<int> { NewSeq(m) + TriedSeq(m) }

  // The entries below n that the order lists are distinct known ones, the new before the tried.
  ghost predicate Lists(m: Man) {
    && (forall k | 0 <= k < |All(m)| :: All(m)[k] in m.info && (m.info[All(m)[k]].fInTried <==> k >= |NewSeq(m)|))
    && (forall j, k | 0 <= j < k < |All(m)| :: All(m)[j] != All(m)[k])
    && (forall id | id in m.info :: id in All(m))
  }

  lemma AllLists(h: Hashes, m: Man)
    requires Consistent(h, m)
    ensures Lists(m) && |NewSeq(m)| == m.nNew && |All(m)| == m.nNew + m.nTried
  {
    CountsMatch(h, m);
    WantedNew(h, m);
    ListsFrom(m);
  }

  lemma ListsFrom(m: Man)
    requires forall id | id in m.info :: Wanted(m.info[id], false) <==> !m.info[id].fInTried
    requires forall id | id in m.info :: 0 <= id < m.nIdCount
    ensures Lists(m)
  {
    IdsBelowAre(m.info, false, m.nIdCount);
    IdsBelowAre(m.info, true, m.nIdCount);
    var n, t, a := NewSeq(m), TriedSeq(m), All(m);
    forall k | 0 <= k < |a| ensures a[k] in m.info && (m.info[a[k]].fInTried <==> k >= |n|) {
      if k < |n| { assert a[k] in n; } else { assert a[k] == t[k - |n|] && a[k] in t; }
    }
    forall id | id in m.info ensures id in a {
      assert id in n || id in t;
    }
  }

  function Ip(m: Man, k: int): NetAddr
    requires 0 <= k < |All(m)| && All(m)[k] in m.info
  {
    m.info[All(m)[k]].service.ip
  }

  // Entry k once it is read, before it has any reference.
  function Expect(m: Man, k: int): Info
    requires 0 <= k < |All(m)| && All(m)[k] in m.info
  {
    Load(Save(m.info[All(m)[k]])).(nRandomPos := k, fInTried := k >= |NewSeq(m)|)
  }

  ghost predicate AddrListed(m: Man, n: nat, addr: map<NetAddr, int>)
    requires Lists(m) && n <= |All(m)|
  {
    && (forall a | a in addr :: 0 <= addr[a] < n && Ip(m, addr[a]) == a)
    && (forall k | 0 <= k < n :: Ip(m, k) in addr && addr[Ip(m, k)] == k)
  }

  ghost predicate InfoListed(m: Man, n: nat, info: map<int, Info>, random: seq<int>)
    requires Lists(m) && n <= |All(m)|
  {
    && (forall id :: id in info <==> 0 <= id < n)
    && (forall k | 0 <= k < n :: info[k].(nRefCount := 0) == Expect(m, k))
    && |random| == n && (forall k | 0 <= k < n :: random[k] == k)
  }

  // Distinct entries have distinct addresses.
  ghost predicate DistinctIps(m: Man)
    requires Lists(m)
  {
    forall j, k | 0 <= j < k < |All(m)| :: Ip(m, j) != Ip(m, k)
  }

  lemma IpsDistinct(h: Hashes, m: Man)
    requires Linked(h, m) && Lists(m)
    ensures DistinctIps(m)
  {
    forall j, k | 0 <= j < k < |All(m)| ensures Ip(m, j) != Ip(m, k) {
      var a, b := All(m)[j], All(m)[k];
      assert a in m.info && b in m.info && a != b;
    }
  }

  /******* A stream that was written *******/

  // A stream written from the consistent manager m.
  ghost predicate Written(h: Hashes, m: Man, st: Stream) {
    Consistent(h, m) && Encodes(h, m, st)
  }

  ghost predicate Prepared(h: Hashes, m: Man, st: Stream) {
    && Lists(m) && DistinctIps(m)
    && |NewSeq(m)| == |st.news| == st.nNew && |All(m)| == st.nNew + st.nTried && |st.trieds| == st.nTried
    && (forall k | 0 <= k < st.nNew :: st.news[k] == Save(m.info[All(m)[k]]))
    && (forall k | 0 <= k < st.nTried :: st.trieds[k] == Save(m.info[All(m)[st.nNew + k]]))
  }

  lemma WrittenPrepares(h: Hashes, m: Man, st: Stream)
    requires Written(h, m, st)
    ensures Prepared(h, m, st)
  {
    AllLists(h, m);
    IpsDistinct(h, m);
  }

  // Tried entries have different slots, so that all are kept.
  lemma AllTriedKept(m: Man, st: Stream, k: nat)
    requires Tabled(st.nKey, m) && Prepared(st.nKey, m, st) && k < st.nTried
    ensures KeptTried(st, k)
  {
    forall j: nat | j < k ensures TriedSlotAt(st, j) != TriedSlotAt(st, k) {
      var a, b := All(m)[st.nNew + j], All(m)[st.nNew + k];
      assert a != b && a in m.info && b in m.info;
      assert EntryOk(st.nKey, m.info[a], a, m.newT, m.triedT) && EntryOk(st.nKey, m.info[b], b, m.newT, m.triedT);
    }
  }

  // Then the ids are the numbers in the stream.
  lemma {:induction false} OriginAll(st: Stream, n: nat)
    requires Whole(st) && n <= EntryCount(st) && forall k: nat | k < TriedCount(st) :: KeptTried(st, k)
    ensures |Origin(st, n)| == n && forall k | 0 <= k < n :: Origin(st, n)[k] == k
  {
    if n > 0 { OriginAll(st, n - 1); }
  }

  lemma WrittenOrigin(m: Man, st: Stream)
    requires Tabled(st.nKey, m) && Prepared(st.nKey, m, st)
    ensures Whole(st) && EntryCount(st) == |All(m)| == |Origin(st, |All(m)|)|
    ensures forall k | 0 <= k < |All(m)| :: Origin(st, |All(m)|)[k] == k
  {
    forall k: nat | k < TriedCount(st) ensures KeptTried(st, k) { AllTriedKept(m, st, k); }
    OriginAll(st, |All(m)|);
  }

  // The slots in `done` hold the entries they held.
  ghost predicate NewRead(m: Man, done: set<Slot>, t: Table) {
    t.Keys == done && forall s | s in done :: NumberOk(m, s, t[s])
  }

  // Of the slots the listed entry has, the one that comes next is still to be given back.
  lemma RefsFew(m: Man, t: Table, done: set<Slot>, s: Slot, r: int)
    requires NewRead(m, done, t) && s !in done && NumberOk(m, s, r)
    ensures |SlotsOf(t, r)| < |SlotsOf(m.newT, m.newT[s])|
  {
    var mine, all := SlotsOf(t, r), SlotsOf(m.newT, m.newT[s]);
    forall q | q in mine + {s} ensures q in all {
      if q != s { assert q in done && NumberOk(m, q, t[q]); }
    }
    Smaller(mine + {s}, all);
  }

  lemma Smaller(a: set<Slot>, b: set<Slot>)
    requires a <= b
    ensures |a| <= |b|
  {
    assert b == a + (b - a);
  }

  // So the slot a bucket's list names is free and is given to the entry.
  lemma ClaimPossible(m: Man, st: Stream, t: Table, done: set<Slot>, s: Slot, r: int)
    requires Tabled(st.nKey, m) && Prepared(st.nKey, m, st) && NewRead(m, done, t) && s !in done && NumberOk(m, s, r)
    ensures Claimed(st, t, s.bucket, r) == t[s := r] && NewRead(m, done + {s}, t[s := r])
  {
    RefsFew(m, t, done, s, r);
    ClaimSlot(m, st, s, r);
    NewReadPut(m, t, done, s, r);
  }

  lemma ClaimSlot(m: Man, st: Stream, s: Slot, r: int)
    requires Tabled(st.nKey, m) && Prepared(st.nKey, m, st) && NumberOk(m, s, r)
    ensures NewSlot(st.nKey, st.news[r].service, s.bucket) == s
    ensures |SlotsOf(m.newT, m.newT[s])| <= NEW_BUCKETS_PER_ADDRESS
  {
    var id := m.newT[s];
    assert All(m)[r] == id;
    assert NewSlotOk(st.nKey, m.info, s, id);
    assert EntryOk(st.nKey, m.info[id], id, m.newT, m.triedT);
  }

  lemma NewReadPut(m: Man, t: Table, done: set<Slot>, s: Slot, r: int)
    requires NewRead(m, done, t) && NumberOk(m, s, r)
    ensures NewRead(m, done + {s}, t[s := r])
  {
  }

  ghost predicate DoneTo(m: Man, done: set<Slot>, b: nat, n: nat) {
    var ps := PosBelow(m.newT, b, BUCKET_SIZE);
    n <= |ps| && forall s | s in m.newT :: s in done <==> s.bucket < b || (s.bucket == b && s.pos in ps[..n])
  }

  lemma DoneStep(m: Man, done: set<Slot>, b: nat, n: nat)
    requires DoneTo(m, done, b, n) && n < |PosBelow(m.newT, b, BUCKET_SIZE)|
    ensures var s := Slot(b, PosBelow(m.newT, b, BUCKET_SIZE)[n]);
            s in m.newT && s !in done && DoneTo(m, done + {s}, b, n + 1)
  {
    PosBelowAre(m.newT, b, BUCKET_SIZE);
    var ps := PosBelow(m.newT, b, BUCKET_SIZE);
    assert ps[n] in ps;
    assert ps[..n + 1] == ps[..n] + [ps[n]];
  }

  lemma DoneBucket(h: Hashes, m: Man, done: set<Slot>, b: nat)
    requires Tabled(h, m) && DoneTo(m, done, b, |PosBelow(m.newT, b, BUCKET_SIZE)|)
    ensures DoneTo(m, done, b + 1, 0)
  {
    var ps := PosBelow(m.newT, b, BUCKET_SIZE);
    PosBelowAre(m.newT, b, BUCKET_SIZE);
    assert ps[..|ps|] == ps;
    forall s | s in m.newT ensures s in done <==> s.bucket < b + 1 {
      assert NewSlotOk(h, m.info, s, m.newT[s]);
      assert s.bucket == b ==> s == Slot(b, s.pos);
    }
  }

  // The lists of a bucket, and all of them, fill just the slots that were written.
  lemma {:induction false} WrittenList(m: Man, st: Stream, t: Table, done: set<Slot>, b: nat, list: seq<int>, n: nat)
    returns (done': set<Slot>)
    requires Tabled(st.nKey, m) && Prepared(st.nKey, m, st) && NewRead(m, done, t) && DoneTo(m, done, b, 0)
    requires BucketOk(m, b, list) && n <= |list|
    ensures NewRead(m, done', ListTable(st, t, b, list, n)) && DoneTo(m, done', b, n)
  {
    if n == 0 {
      done' := done;
    } else {
      var before := WrittenList(m, st, t, done, b, list, n - 1);
      var s := Slot(b, PosBelow(m.newT, b, BUCKET_SIZE)[n - 1]);
      DoneStep(m, before, b, n - 1);
      assert NumberOk(m, s, list[n - 1]);
      ClaimPossible(m, st, ListTable(st, t, b, list, n - 1), before, s, list[n - 1]);
      done' := before + {s};
    }
  }

  lemma {:induction false} WrittenBuckets(m: Man, st: Stream, b: nat) returns (done: set<Slot>)
    requires Tabled(st.nKey, m) && Prepared(st.nKey, m, st) && Encodes(st.nKey, m, st) && b <= NEW_BUCKET_COUNT
    ensures NewRead(m, done, BucketTable(st, b)) && DoneTo(m, done, b, 0)
  {
    if b == 0 {
      done := {};
    } else {
      var before := WrittenBuckets(m, st, b - 1);
      var list := st.buckets[b - 1];
      done := WrittenList(m, st, BucketTable(st, b - 1), before, b - 1, list, |list|);
      DoneBucket(st.nKey, m, done, b - 1);
    }
  }

  lemma AllDone(h: Hashes, m: Man, done: set<Slot>, t: Table)
    requires Tabled(h, m) && NewRead(m, done, t) && DoneTo(m, done, NEW_BUCKET_COUNT, 0)
    ensures done == m.newT.Keys
  {
    forall s | s in m.newT ensures s in done {
      assert NewSlotOk(h, m.info, s, m.newT[s]);
    }
    forall s | s in done ensures s in m.newT {
      assert NumberOk(m, s, t[s]);
    }
  }

  /******* The manager read back *******/

  // The same slots are occupied, and by the same entries under the renaming.
  ghost predicate SameTable(order: seq<int>, t: Table, t': Table) {
    t'.Keys == t.Keys && forall s | s in t :: 0 <= t'[s] < |order| && order[t'[s]] == t[s]
  }

  // x is m with entry All(m)[k] called k, in that order in vRandom, and with what
  // is not saved reset.
  ghost predicate Renamed(m: Man, x: Man) {
    && Lists(m) && InfoListed(m, |All(m)|, x.info, x.random) && AddrListed(m, |All(m)|, x.addr)
    && (forall k | 0 <= k < |All(m)| :: x.info[k].nRefCount == m.info[All(m)[k]].nRefCount)
    && SameTable(All(m), m.newT, x.newT) && SameTable(All(m), m.triedT, x.triedT)
    && x.nNew == m.nNew && x.nTried == m.nTried && x.nIdCount == |All(m)|
  }

  lemma TriedSame(h: Hashes, m: Man, x: Man)
    requires Tabled(h, m) && Tabled(h, x) && Lists(m) && InfoListed(m, |All(m)|, x.info, x.random)
    ensures SameTable(All(m), m.triedT, x.triedT)
  {
    forall s | s in x.triedT ensures s in m.triedT && 0 <= x.triedT[s] < |All(m)| && All(m)[x.triedT[s]] == m.triedT[s] {
      var k := x.triedT[s];
      assert TriedSlotOk(h, x.info, s, k) && x.info[k].(nRefCount := 0) == Expect(m, k);
      var id := All(m)[k];
      assert EntryOk(h, m.info[id], id, m.newT, m.triedT);
    }
    forall s | s in m.triedT ensures s in x.triedT {
      var id := m.triedT[s];
      assert TriedSlotOk(h, m.info, s, id) && id in All(m);
      var k :| 0 <= k < |All(m)| && All(m)[k] == id;
      assert x.info[k].(nRefCount := 0) == Expect(m, k);
      assert EntryOk(h, x.info[k], k, x.newT, x.triedT);
    }
  }

  lemma NewSame(m: Man, t: Table)
    requires NewRead(m, m.newT.Keys, t)
    ensures SameTable(All(m), m.newT, t)
  {
    forall s | s in m.newT ensures 0 <= t[s] < |All(m)| && All(m)[t[s]] == m.newT[s] {
      assert NumberOk(m, s, t[s]);
    }
  }

  lemma SlotsSame(m: Man, order: seq<int>, t: Table, t': Table, k: int)
    requires SameTable(order, t, t') && 0 <= k < |order|
    requires forall i, j | 0 <= i < j < |order| :: order[i] != order[j]
    ensures SlotsOf(t', k) == SlotsOf(t, order[k])
  {
    forall s ensures s in SlotsOf(t', k) <==> s in SlotsOf(t, order[k]) {
    }
  }

  // The entries, before pruning, of a stream that was written.
  lemma WrittenInfo(m: Man, st: Stream, x: Man)
    requires Tabled(st.nKey, m) && Prepared(st.nKey, m, st) && ReadRight(st, x)
    ensures InfoListed(m, |All(m)|, x.info, x.random)
  {
    WrittenOrigin(m, st);
    forall k | 0 <= k < |All(m)| ensures x.info[k].(nRefCount := 0) == Expect(m, k) {
      assert Bare(x.info[k]) == Load(EntryAt(st, k)) && EntryAt(st, k) == Save(m.info[All(m)[k]]);
      assert x.random[x.info[k].nRandomPos] == k;
      ExpectBare(x.info[k], m, k);
    }
  }

  lemma ExpectBare(i: Info, m: Man, k: int)
    requires 0 <= k < |All(m)| && All(m)[k] in m.info && Bare(i) == Load(Save(m.info[All(m)[k]]))
    requires i.nRandomPos == k && (i.fInTried <==> k >= |NewSeq(m)|)
    ensures i.(nRefCount := 0) == Expect(m, k)
  {
    assert i.(nRefCount := 0) == Bare(i).(nRandomPos := i.nRandomPos, fInTried := i.fInTried);
  }

  lemma WrittenAddr(m: Man, x: Man)
    requires Lists(m) && DistinctIps(m) && InfoListed(m, |All(m)|, x.info, x.random)
    requires AddrBack(x.info, x.addr) && AddrCovers(x.info, x.addr)
    ensures AddrListed(m, |All(m)|, x.addr)
  {
    forall k | 0 <= k < |All(m)| ensures x.info[k].service.ip == Ip(m, k) {
      assert x.info[k].(nRefCount := 0) == Expect(m, k);
    }
  }

  lemma WrittenTable(m: Man, st: Stream)
    requires Tabled(st.nKey, m) && Prepared(st.nKey, m, st) && Encodes(st.nKey, m, st) && !Short(st)
    ensures SameTable(All(m), m.newT, NewTable(st))
  {
    var done := WrittenBuckets(m, st, NEW_BUCKET_COUNT);
    AllDone(st.nKey, m, done, BucketTable(st, NEW_BUCKET_COUNT));
    NewSame(m, BucketTable(st, NEW_BUCKET_COUNT));
  }

  lemma WrittenRefs(h: Hashes, m: Man, x: Man)
    requires Tabled(h, m) && Tabled(h, x) && Lists(m) && InfoListed(m, |All(m)|, x.info, x.random)
    requires SameTable(All(m), m.newT, x.newT)
    ensures forall k | 0 <= k < |All(m)| :: x.info[k].nRefCount == m.info[All(m)[k]].nRefCount
  {
    forall k | 0 <= k < |All(m)| ensures x.info[k].nRefCount == m.info[All(m)[k]].nRefCount {
      SlotsSame(m, All(m), m.newT, x.newT, k);
      var id := All(m)[k];
      assert EntryOk(h, m.info[id], id, m.newT, m.triedT) && EntryOk(h, x.info[k], k, x.newT, x.triedT);
    }
  }

  // What is read before pruning is the manager under other ids.
  lemma WrittenRenames(m: Man, st: Stream, x: Man)
    requires Written(st.nKey, m, st) && ReadRight(st, x)
    ensures Renamed(m, x)
  {
    WrittenPrepares(st.nKey, m, st);
    WrittenInfo(m, st, x);
    WrittenAddr(m, x);
    WrittenTable(m, st);
    TriedSame(st.nKey, m, x);
    WrittenRefs(st.nKey, m, x);
    WrittenOrigin(m, st);
  }

  // Nothing is pruned, and a written stream is never refused.
  lemma WrittenStays(m: Man, st: Stream, x: Man)
    requires Written(st.nKey, m, st) && Renamed(m, x)
    ensures Consistent(st.nKey, x) && AllStay(x)
  {
    RenamedConsistent(st.nKey, m, x);
  }

  lemma WrittenAccepted(m: Man, st: Stream)
    requires Written(st.nKey, m, st)
    ensures !OverLimit(st) && !Short(st) && st.nNew >= 0
  {
    WithinLimits(st.nKey, m);
    WrittenPrepares(st.nKey, m, st);
  }

  lemma RenamedIndexed(m: Man, x: Man)
    requires Renamed(m, x)
    ensures Indexed(x)
  {
    forall id | id in x.info
      ensures x.info[id].nRandomPos == id
      ensures 0 <= id < x.nIdCount && x.info[id].service.ip in x.addr && x.addr[x.info[id].service.ip] == id
    {
      assert x.info[id].(nRefCount := 0) == Expect(m, id) && x.info[id].service.ip == Ip(m, id);
    }
    forall a | a in x.addr ensures x.addr[a] in x.info && x.info[x.addr[a]].service.ip == a {
      var id := x.addr[a];
      assert x.info[id].(nRefCount := 0) == Expect(m, id) && Ip(m, id) == a;
    }
  }

  lemma RenamedEntry(h: Hashes, m: Man, x: Man, k: int)
    requires Tabled(h, m) && Renamed(m, x) && 0 <= k < |All(m)|
    ensures EntryOk(h, x.info[k], k, x.newT, x.triedT)
  {
    var id := All(m)[k];
    SlotsSame(m, All(m), m.newT, x.newT, k);
    SlotsSame(m, All(m), m.triedT, x.triedT, k);
    assert EntryOk(h, m.info[id], id, m.newT, m.triedT);
    assert x.info[k].(nRefCount := 0) == Expect(m, k);
    if x.info[k].fInTried {
      var s := TriedSlot(h, m.info[id].service);
      assert s in SlotsOf(m.triedT, id);
    }
  }

  lemma RenamedSlots(h: Hashes, m: Man, x: Man)
    requires Tabled(h, m) && Renamed(m, x)
    ensures SlotsOk(h, x.info, x.newT, x.triedT)
  {
    forall s | s in x.newT ensures NewSlotOk(h, x.info, s, x.newT[s]) {
      var k := x.newT[s];
      assert All(m)[k] == m.newT[s] && NewSlotOk(h, m.info, s, m.newT[s]);
      assert x.info[k].(nRefCount := 0) == Expect(m, k);
    }
    forall s | s in x.triedT ensures TriedSlotOk(h, x.info, s, x.triedT[s]) {
      var k := x.triedT[s];
      assert All(m)[k] == m.triedT[s] && TriedSlotOk(h, m.info, s, m.triedT[s]);
      assert x.info[k].(nRefCount := 0) == Expect(m, k);
    }
  }

  lemma RenamedCounts(m: Man, x: Man)
    requires Renamed(m, x) && |NewSeq(m)| == m.nNew && |All(m)| == m.nNew + m.nTried
    ensures Counted(x, 0)
  {
    forall k | 0 <= k < |All(m)| ensures x.info[k].fInTried <==> k >= m.nNew {
      assert x.info[k].(nRefCount := 0) == Expect(m, k);
    }
    NumberedCounts(x.info, m.nNew, |All(m)|);
  }

  // A renamed consistent manager is consistent.
  lemma RenamedConsistent(h: Hashes, m: Man, x: Man)
    requires Consistent(h, m) && Renamed(m, x)
    ensures Consistent(h, x)
  {
    AllLists(h, m);
    RenamedIndexed(m, x);
    RenamedTabled(h, m, x);
    RenamedCounts(m, x);
    RenamedReferenced(m, x);
  }

  lemma RenamedTabled(h: Hashes, m: Man, x: Man)
    requires Tabled(h, m) && Renamed(m, x)
    ensures Tabled(h, x)
  {
    forall k | k in x.info ensures EntryOk(h, x.info[k], k, x.newT, x.triedT) {
      RenamedEntry(h, m, x, k);
    }
    RenamedSlots(h, m, x);
  }

  lemma RenamedReferenced(m: Man, x: Man)
    requires Referenced(m.info, {}) && Renamed(m, x)
    ensures Referenced(x.info, {})
  {
    forall k | k in x.info ensures x.info[k].fInTried || x.info[k].nRefCount > 0 {
      assert x.info[k].(nRefCount := 0) == Expect(m, k);
      assert All(m)[k] in m.info;
    }
  }

  // The limits on the counts are the numbers of slots.
  lemma WithinLimits(h: Hashes, m: Man)
    requires Consistent(h, m)
    ensures 0 <= m.nNew <= NEW_BUCKET_COUNT * BUCKET_SIZE && 0 <= m.nTried <= TRIED_BUCKET_COUNT * BUCKET_SIZE
  {
    CountsMatch(h, m);
    WantedNew(h, m);
    IdsBelowAre(m.info, false, m.nIdCount);
    IdsBelowAre(m.info, true, m.nIdCount);
    forall k | 0 <= k < |NewSeq(m)| ensures Holds(m.newT, NewSeq(m)[k]) {
      var id := NewSeq(m)[k];
      assert id in NewSeq(m);
      assert EntryOk(h, m.info[id], id, m.newT, m.triedT);
      var b := HasSlot(h, m, id);
    }
    forall k | 0 <= k < |TriedSeq(m)| ensures Holds(m.triedT, TriedSeq(m)[k]) {
      var id := TriedSeq(m)[k];
      assert id in TriedSeq(m);
      assert EntryOk(h, m.info[id], id, m.newT, m.triedT);
    }
    SlotsInRange(h, m);
    AllSlotsCount(NEW_BUCKET_COUNT, BUCKET_SIZE);
    AllSlotsCount(TRIED_BUCKET_COUNT, BUCKET_SIZE);
    HoldersFit(NewSeq(m), m.newT, AllSlots(NEW_BUCKET_COUNT, BUCKET_SIZE));
    HoldersFit(TriedSeq(m), m.triedT, AllSlots(TRIED_BUCKET_COUNT, BUCKET_SIZE));
  }

  lemma SlotsInRange(h: Hashes, m: Man)
    requires Tabled(h, m)
    ensures m.newT.Keys <= AllSlots(NEW_BUCKET_COUNT, BUCKET_SIZE)
    ensures m.triedT.Keys <= AllSlots(TRIED_BUCKET_COUNT, BUCKET_SIZE)
  {
    forall s | s in m.newT ensures s in AllSlots(NEW_BUCKET_COUNT, BUCKET_SIZE) {
      assert NewSlotOk(h, m.info, s, m.newT[s]);
      assert s == Slot(s.bucket, s.pos);
    }
    forall s | s in m.triedT ensures s in AllSlots(TRIED_BUCKET_COUNT, BUCKET_SIZE) {
      assert TriedSlotOk(h, m.info, s, m.triedT[s]);
      assert s == Slot(s.bucket, s.pos);
    }
  }

  // Writing a consistent manager and reading it into a new one loses nothing.
  method RoundTrip(h: Hashes, m: Man) returns (r: Loaded)
    requires Consistent(h, m)
    ensures r.Ok? && Renamed(m, r.man) && Consistent(h, r.man)
  {
    var st := Serialize(h, m);
    ghost var x;
    WrittenAccepted(m, st);
    r, x := Unserialize(st);
    WrittenRenames(m, st, x);
    WrittenStays(m, st, x);
  }
}
