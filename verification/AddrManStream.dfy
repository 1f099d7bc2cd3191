// The stream of src/addrman.h, and what reading it keeps, told from the stream alone:
// which entries get a slot, and which addresses come twice among them.

module AddrManStream {
  import opened AddrMan
  import opened AddrManLoading

  // The persistent fields of an entry.
  datatype Saved = Saved(service: Service, nTime: int, nServices: bv64, source: NetAddr, nLastSuccess: int, nAttempts: int)

  datatype Stream = Stream(
    nVersion: nat,
    nKeySize: nat,
    nKey: Hashes,                 // the key the hashes depend on
    nNew: int,
    nTried: int,
    nUBuckets: int,
    news: seq<Saved>,
    trieds: seq<Saved>,
    buckets: seq<seq<int>>)

  function Save(i: Info): Saved {
    Saved(i.service, i.nTime, i.nServices, i.source, i.nLastSuccess, i.nAttempts)
  }

  // An entry as read: everything that is memory-only starts afresh.
  function Load(s: Saved): Info {
    Info(s.service, s.source, s.nTime, s.nServices, 0, 0, s.nLastSuccess, s.nAttempts, 0, false, -1)
  }

  // An entry without what reading it adds.
  function Bare(i: Info): Info {
    i.(nRefCount := 0, fInTried := false, nRandomPos := -1)
  }

  /******* The header *******/

  // x ^ (1 << 30) of an int.
  function FlipBit30(x: int): int {
    if x / 0x4000_0000 % 2 == 0 then x + 0x4000_0000 else x - 0x4000_0000
  }

  function BucketCount(st: Stream): int {
    if st.nVersion != 0 then FlipBit30(st.nUBuckets) else st.nUBuckets
  }

  // Whether the bucket lists are used.
  predicate Usable(st: Stream) {
    st.nVersion == 1 && BucketCount(st) == NEW_BUCKET_COUNT
  }

  predicate OverLimit(st: Stream) {
    st.nKeySize != 32 || st.nNew > NEW_BUCKET_COUNT * BUCKET_SIZE || st.nTried > TRIED_BUCKET_COUNT * BUCKET_SIZE
  }

  predicate Short(st: Stream) {
    |st.news| < st.nNew || |st.trieds| < st.nTried || |st.buckets| < BucketCount(st)
  }

  // How many tried entries are read.
  function TriedCount(st: Stream): nat {
    if st.nTried < 0 then 0 else st.nTried
  }

  function EntryCount(st: Stream): int {
    st.nNew + TriedCount(st)
  }

  /******* Which entries are kept *******/

  // The entries are there.
  predicate Whole(st: Stream) {
    0 <= st.nNew <= |st.news| && TriedCount(st) <= |st.trieds|
  }

  function TriedSlotAt(st: Stream, k: nat): Slot
    requires k < |st.trieds|
  {
    TriedSlot(st.nKey, st.trieds[k].service)
  }

  // A tried entry is kept if it is the first for its slot.
  predicate KeptTried(st: Stream, k: nat)
    requires k < |st.trieds|
  {
    forall j: nat | j < k :: TriedSlotAt(st, j) != TriedSlotAt(st, k)
  }

  function HomeAt(st: Stream, k: nat): Slot
    requires k < |st.news|
  {
    HomeSlot(st.nKey, Load(st.news[k]))
  }

  // Without usable lists: each of the first n new entries takes the slot of its own
  // source unless an earlier one has it.
  ghost function HomeTable(st: Stream, n: nat): Table
    requires n <= |st.news|
  {
    if n == 0 then map[]
    else
      var t, s := HomeTable(st, n - 1), HomeAt(st, n - 1);
      if s in t then t else t[s := n - 1]
  }

  // With usable lists: a number in the list of bucket b takes the slot of its entry there
  // unless that is taken or the entry has eight.
  ghost function Claimed(st: Stream, t: Table, b: nat, nIndex: int): Table
    requires st.nNew <= |st.news|
  {
    if 0 <= nIndex < st.nNew then
      var s := NewSlot(st.nKey, st.news[nIndex].service, b);
      if s !in t && |SlotsOf(t, nIndex)| < NEW_BUCKETS_PER_ADDRESS then t[s := nIndex] else t
    else t
  }

  ghost function ListTable(st: Stream, t: Table, b: nat, list: seq<int>, n: nat): Table
    requires st.nNew <= |st.news| && n <= |list|
  {
    if n == 0 then t else Claimed(st, ListTable(st, t, b, list, n - 1), b, list[n - 1])
  }

  ghost function BucketTable(st: Stream, b: nat): Table
    requires st.nNew <= |st.news| && b <= |st.buckets|
  {
    if b == 0 then map[] else ListTable(st, BucketTable(st, b - 1), b - 1, st.buckets[b - 1], |st.buckets[b - 1]|)
  }

  // The new table that a stream which is not short gives.
  ghost function NewTable(st: Stream): Table
    requires Whole(st) && !Short(st)
  {
    if Usable(st) then BucketTable(st, NEW_BUCKET_COUNT) else HomeTable(st, st.nNew)
  }

  // A new entry is kept if it gets a slot: from the lists, or as the first for its own.
  ghost predicate KeptNew(st: Stream, k: nat)
    requires Whole(st) && !Short(st) && k < st.nNew
  {
    if Usable(st) then k in BucketTable(st, NEW_BUCKET_COUNT).Values
    else forall j: nat | j < k :: HomeAt(st, j) != HomeAt(st, k)
  }

  // The table of first claimants.
  ghost predicate Holder(st: Stream, t: Table, s: Slot)
    requires s in t
  {
    0 <= t[s] < |st.news| && HomeAt(st, t[s]) == s
  }

  ghost predicate Claims(st: Stream, t: Table, k: nat)
    requires k < |st.news|
  {
    HomeAt(st, k) in t && t[HomeAt(st, k)] <= k
  }

  lemma {:induction false} HomeTableIs(st: Stream, n: nat)
    requires n <= |st.news|
    ensures forall s | s in HomeTable(st, n) :: Holder(st, HomeTable(st, n), s) && HomeTable(st, n)[s] < n
    ensures forall k: nat | k < n :: Claims(st, HomeTable(st, n), k)
  {
    if n > 0 {
      HomeTableIs(st, n - 1);
      var t, t' := HomeTable(st, n - 1), HomeTable(st, n);
      forall s | s in t' ensures Holder(st, t', s) && t'[s] < n {
        if s in t { assert Holder(st, t, s) && t'[s] == t[s]; }
      }
      forall k: nat | k < n ensures Claims(st, t', k) {
        if k < n - 1 { assert Claims(st, t, k); }
      }
    }
  }

  lemma KeptNewIff(st: Stream, k: nat)
    requires Whole(st) && !Short(st) && k < st.nNew
    ensures KeptNew(st, k) <==> k in NewTable(st).Values
  {
    if !Usable(st) {
      var t := HomeTable(st, st.nNew);
      HomeTableIs(st, st.nNew);
      assert Claims(st, t, k) && Holder(st, t, HomeAt(st, k));
      if k in t.Values {
        var s :| s in t && t[s] == k;
        assert Holder(st, t, s);
        forall j: nat | j < k ensures HomeAt(st, j) != HomeAt(st, k) { assert Claims(st, t, j); }
      }
    }
  }

  // Entry k of a stream, the new ones before the tried.
  function EntryAt(st: Stream, k: nat): Saved
    requires Whole(st) && k < EntryCount(st)
  {
    if k < st.nNew then st.news[k] else st.trieds[k - st.nNew]
  }

  // Every new entry is read, and a tried one if it is kept.
  predicate IsRead(st: Stream, k: nat)
    requires Whole(st) && k < EntryCount(st)
  {
    k < st.nNew || KeptTried(st, k - st.nNew)
  }

  ghost predicate Kept(st: Stream, k: nat)
    requires Whole(st) && !Short(st) && k < EntryCount(st)
  {
    if k < st.nNew then KeptNew(st, k) else KeptTried(st, k - st.nNew)
  }

  // No entry that is kept has the address of another one read.
  ghost predicate SharesNone(st: Stream)
    requires Whole(st) && !Short(st)
  {
    forall j: nat, k: nat | j < EntryCount(st) && k < EntryCount(st) && j != k && Kept(st, j) && IsRead(st, k) ::
      EntryAt(st, j).service.ip != EntryAt(st, k).service.ip
  }

  // The streams that give a consistent manager.
  ghost predicate Loadable(st: Stream)
    requires !Short(st)
  {
    st.nNew >= 0 && st.nTried >= 0 && SharesNone(st)
  }

  // Distinct addresses are enough.
  lemma DistinctLoadable(st: Stream)
    requires !Short(st) && st.nNew >= 0 && st.nTried >= 0
    requires forall j: nat, k: nat | j < k < EntryCount(st) :: EntryAt(st, j).service.ip != EntryAt(st, k).service.ip
    ensures Loadable(st)
  {
    forall j: nat, k: nat | j < EntryCount(st) && k < EntryCount(st) && j != k
      ensures EntryAt(st, j).service.ip != EntryAt(st, k).service.ip
    {
      if j < k { assert EntryAt(st, j).service.ip != EntryAt(st, k).service.ip; }
      else { assert EntryAt(st, k).service.ip != EntryAt(st, j).service.ip; }
    }
  }

  /******* Which entry of the stream an id is *******/

  // The numbers of those read among the first n: id k is the k-th of them.
  ghost function Origin(st: Stream, n: nat): seq<nat>
    requires Whole(st) && n <= EntryCount(st)
  {
    if n == 0 then [] else Origin(st, n - 1) + (if IsRead(st, n - 1) then [n - 1] else [])
  }

  lemma {:induction false} OriginIs(st: Stream, n: nat)
    requires Whole(st) && n <= EntryCount(st)
    ensures forall j, k | 0 <= j < k < |Origin(st, n)| :: Origin(st, n)[j] < Origin(st, n)[k]
    ensures forall k: nat :: k in Origin(st, n) <==> k < n && IsRead(st, k)
  {
    if n > 0 {
      OriginIs(st, n - 1);
      var o := Origin(st, n - 1);
      assert forall k | 0 <= k < |o| :: o[k] in o;
    }
  }

  lemma {:induction false} OriginNews(st: Stream, n: nat)
    requires Whole(st) && n <= EntryCount(st)
    ensures if n <= st.nNew then |Origin(st, n)| == n else |Origin(st, n)| >= st.nNew
    ensures forall k | 0 <= k < n && k < st.nNew :: Origin(st, n)[k] == k
  {
    if n > 0 { OriginNews(st, n - 1); }
  }

  lemma {:induction false} OriginFew(st: Stream, n: nat)
    requires Whole(st) && n <= EntryCount(st)
    ensures |Origin(st, n)| <= n
  {
    if n > 0 { OriginFew(st, n - 1); }
  }

  // The entries are those of the stream that are read, in order.
  ghost predicate FromStream(st: Stream, info: map<int, Info>, n: nat)
    requires Whole(st) && n <= EntryCount(st)
  {
    var o := Origin(st, n);
    forall id | id in info :: 0 <= id < |o| && o[id] < EntryCount(st) && Bare(info[id]) == Load(EntryAt(st, o[id]))
  }

  // One more entry of the stream is read.
  lemma FromStreamNext(st: Stream, info: map<int, Info>, n: nat, i: Info)
    requires Whole(st) && n < EntryCount(st) && FromStream(st, info, n)
    requires IsRead(st, n) && Bare(i) == Load(EntryAt(st, n))
    ensures FromStream(st, info[|Origin(st, n)| := i], n + 1) && |Origin(st, n + 1)| == |Origin(st, n)| + 1
  {
    assert Origin(st, n + 1) == Origin(st, n) + [n];
  }

  lemma FromStreamLost(st: Stream, info: map<int, Info>, n: nat)
    requires Whole(st) && n < EntryCount(st) && FromStream(st, info, n) && !IsRead(st, n)
    ensures FromStream(st, info, n + 1) && |Origin(st, n + 1)| == |Origin(st, n)|
  {
    assert Origin(st, n + 1) == Origin(st, n);
  }

  // Only counts of references differ.
  ghost predicate Recounted(info: map<int, Info>, info': map<int, Info>) {
    (forall id :: id in info' <==> id in info) && forall id | id in info :: Bare(info'[id]) == Bare(info[id])
  }

  lemma RecountedOne(info0: map<int, Info>, info: map<int, Info>, id: int, c: int)
    requires Recounted(info0, info) && id in info
    ensures Recounted(info0, info[id := info[id].(nRefCount := c)])
  {
  }

  lemma RecountedFrom(st: Stream, x: Man, x': Man, n: nat)
    requires Whole(st) && n <= EntryCount(st) && OriginsTo(st, x, n) && Recounted(x.info, x'.info) && x'.nIdCount == x.nIdCount
    ensures OriginsTo(st, x', n)
  {
    forall id | id in x'.info ensures Bare(x'.info[id]) == Bare(x.info[id]) { }
  }

  // The tried slots taken are those of the first n tried entries.
  ghost predicate TriedTaken(st: Stream, t: Table, n: nat)
    requires n <= |st.trieds|
  {
    && (forall k: nat | k < n :: TriedSlotAt(st, k) in t)
    && (forall s | s in t :: SomeClaims(st, s, n))
  }

  ghost predicate SomeClaims(st: Stream, s: Slot, n: nat)
    requires n <= |st.trieds|
  {
    exists k: nat :: k < n && TriedSlotAt(st, k) == s
  }

  // So an entry finds its slot free exactly if it is kept.
  lemma FreeIffKept(st: Stream, t: Table, n: nat)
    requires n < |st.trieds| && TriedTaken(st, t, n)
    ensures TriedSlotAt(st, n) !in t <==> KeptTried(st, n)
  {
    if TriedSlotAt(st, n) in t {
      assert SomeClaims(st, TriedSlotAt(st, n), n);
    }
  }

  lemma TakenNext(st: Stream, t: Table, n: nat, id: int)
    requires n < |st.trieds| && TriedTaken(st, t, n)
    ensures TriedTaken(st, t[TriedSlotAt(st, n) := id], n + 1)
    ensures TriedSlotAt(st, n) in t ==> TriedTaken(st, t, n + 1)
  {
    var m, s0 := n + 1, TriedSlotAt(st, n);
    assert SomeClaims(st, s0, m);
    forall s | s in t ensures SomeClaims(st, s, m) {
      assert SomeClaims(st, s, n);
      var k: nat :| k < n && TriedSlotAt(st, k) == s;
      assert TriedSlotAt(st, k) == s;
    }
  }

  // The entries after n of the stream are those of it that are read, in order.
  ghost predicate OriginsTo(st: Stream, x: Man, n: nat)
    requires Whole(st) && n <= EntryCount(st)
  {
    FromStream(st, x.info, n) && x.nIdCount == |Origin(st, n)|
  }

  lemma EnteredOrigins(st: Stream, x: Man, n: nat)
    requires Whole(st) && n < TriedCount(st) && KeptTried(st, n) && OriginsTo(st, x, st.nNew + n)
    ensures OriginsTo(st, EnterTried(x, TriedSlotAt(st, n), Load(st.trieds[n])), st.nNew + n + 1)
  {
    FromStreamNext(st, x.info, st.nNew + n, Load(st.trieds[n]).(nRandomPos := |x.random|, fInTried := true));
  }

  lemma LostOrigins(st: Stream, x: Man, n: nat)
    requires Whole(st) && n < TriedCount(st) && !KeptTried(st, n) && OriginsTo(st, x, st.nNew + n)
    ensures OriginsTo(st, x, st.nNew + n + 1)
  {
    FromStreamLost(st, x.info, st.nNew + n);
  }

  /******* From the entries read to the stream *******/

  // What is read of a whole stream before pruning.
  ghost predicate AllLoaded(st: Stream, x: Man) {
    && Whole(st) && !Short(st) && Loading(st.nKey, x, st.nNew, x.nIdCount) && x.newT == NewTable(st)
    && OriginsTo(st, x, EntryCount(st))
  }

  lemma OriginAt(st: Stream, id: nat)
    requires Whole(st) && id < |Origin(st, EntryCount(st))|
    ensures var k := Origin(st, EntryCount(st))[id];
            k < EntryCount(st) && IsRead(st, k) && (if id < st.nNew then k == id else k >= st.nNew)
  {
    var n := EntryCount(st);
    var o := Origin(st, n);
    OriginIs(st, n);
    OriginNews(st, n);
    assert o[id] in o;
    if id >= st.nNew > 0 { assert o[st.nNew - 1] < o[id]; }
  }

  lemma HolderIff(t: Table, id: int)
    ensures |SlotsOf(t, id)| != 0 <==> id in t.Values
  {
    if id in t.Values {
      var s :| s in t && t[s] == id;
      assert s in SlotsOf(t, id);
    }
    if |SlotsOf(t, id)| != 0 {
      var s :| s in SlotsOf(t, id);
      assert t[s] in t.Values;
    }
  }

  // An id is pruned just if its entry of the stream is not kept.
  lemma StaysIffKept(st: Stream, x: Man, id: nat)
    requires AllLoaded(st, x) && id < x.nIdCount
    ensures id in x.info
    ensures var k := Origin(st, EntryCount(st))[id];
            k < EntryCount(st) && IsRead(st, k) && (Stays(x.info[id]) <==> Kept(st, k))
  {
    OriginAt(st, id);
    if id < st.nNew {
      assert EntryOk(st.nKey, x.info[id], id, x.newT, x.triedT);
      KeptNewIff(st, id);
      HolderIff(x.newT, id);
    }
  }

  lemma AddressAt(st: Stream, x: Man, id: nat)
    requires AllLoaded(st, x) && id < x.nIdCount
    ensures id in x.info && Origin(st, EntryCount(st))[id] < EntryCount(st)
    ensures x.info[id].service == EntryAt(st, Origin(st, EntryCount(st))[id]).service
  {
    OriginAt(st, id);
    assert Bare(x.info[id]).service == x.info[id].service;
  }

  // Sharing of addresses among the entries read is sharing in the stream.
  lemma UnsharedIff(st: Stream, x: Man)
    requires AllLoaded(st, x)
    ensures Unshared(x.info) <==> SharesNone(st)
  {
    if SharesNone(st) { UnsharedFrom(st, x); }
    if Unshared(x.info) { SharesNoneFrom(st, x); }
  }

  lemma UnsharedFrom(st: Stream, x: Man)
    requires AllLoaded(st, x) && SharesNone(st)
    ensures Unshared(x.info)
  {
    forall a, b | a in x.info && b in x.info && a != b && Stays(x.info[a])
      ensures x.info[a].service.ip != x.info[b].service.ip
    {
      UnsharedPair(st, x, a, b);
    }
  }

  lemma SharesNoneFrom(st: Stream, x: Man)
    requires AllLoaded(st, x) && Unshared(x.info)
    ensures SharesNone(st)
  {
    forall j: nat, k: nat | j < EntryCount(st) && k < EntryCount(st) && j != k && Kept(st, j) && IsRead(st, k)
      ensures EntryAt(st, j).service.ip != EntryAt(st, k).service.ip
    {
      SharesNonePair(st, x, j, k);
    }
  }

  lemma UnsharedPair(st: Stream, x: Man, a: nat, b: nat)
    requires AllLoaded(st, x) && SharesNone(st) && a < x.nIdCount && b < x.nIdCount && a != b && a in x.info && Stays(x.info[a])
    ensures b in x.info && x.info[a].service.ip != x.info[b].service.ip
  {
    StaysIffKept(st, x, a);
    StaysIffKept(st, x, b);
    AddressAt(st, x, a);
    AddressAt(st, x, b);
    OriginIs(st, EntryCount(st));
  }

  lemma SharesNonePair(st: Stream, x: Man, j: nat, k: nat)
    requires AllLoaded(st, x) && Unshared(x.info) && j < EntryCount(st) && k < EntryCount(st) && j != k
    requires Kept(st, j) && IsRead(st, k)
    ensures EntryAt(st, j).service.ip != EntryAt(st, k).service.ip
  {
    var a := IdOf(st, j);
    var b := IdOf(st, k);
    StaysIffKept(st, x, a);
    AddressAt(st, x, a);
    AddressAt(st, x, b);
  }

  lemma IdOf(st: Stream, k: nat) returns (id: nat)
    requires Whole(st) && k < EntryCount(st) && IsRead(st, k)
    ensures id < |Origin(st, EntryCount(st))| && Origin(st, EntryCount(st))[id] == k
  {
    var o := Origin(st, EntryCount(st));
    OriginIs(st, EntryCount(st));
    assert k in o;
    id :| id < |o| && o[id] == k;
  }
}
