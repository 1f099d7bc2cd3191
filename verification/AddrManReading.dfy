// Unserialize of CAddrMan (src/addrman.h): the loops that rebuild the indexes, from any
// stream.

module AddrManReading {
  import opened AddrMan
  import opened AddrManLoading
  import opened AddrManStream

  // Rejected: an exception.
  datatype Loaded = Ok(man: Man) | Rejected

  // The first n new entries of the stream are there under their numbers.
  ghost predicate NewsRead(st: Stream, info: map<int, Info>, n: int) {
    n <= |st.news| && forall k | 0 <= k < n :: k in info && Bare(info[k]) == Load(st.news[k])
  }

  // vRandom lists the ids in order.
  ghost predicate InOrder(random: seq<int>, n: int) {
    |random| == n && forall k | 0 <= k < n :: random[k] == k
  }

  /******* The new entries *******/

  // The new table before the bucket lists are read.
  ghost function StartTable(st: Stream, usable: bool, n: nat): Table
    requires n <= |st.news|
  {
    if usable then map[] else HomeTable(st, n)
  }

  lemma StartNext(st: Stream, usable: bool, n: nat)
    requires n < |st.news|
    ensures var t, s := StartTable(st, usable, n), HomeAt(st, n);
            StartTable(st, usable, n + 1) == if usable || s in t then t else t[s := n]
  {
  }

  // A new entry is read; without usable bucket lists it is given the slot of its own source
  // at once, if that is free.
  function NewStep(st: Stream, usable: bool, x: Man, n: nat): Man
    requires n < |st.news|
  {
    var y := Append(x, n, Load(st.news[n]));
    if !usable && HomeAt(st, n) !in y.newT then Refer(y, HomeAt(st, n), n) else y
  }

  // One turn of the loop over the new entries.
  method ReadOneNew(st: Stream, x0: Man, n: nat, usable: bool) returns (x: Man)
    requires n < |st.news|
    ensures x == NewStep(st, usable, x0, n)
  {
    var info := Load(st.news[n]);
    x := Append(x0, n, info);
    if !usable {
      var b := GetNewBucket(st.nKey, info.service, info.source);
      var slot := NewSlot(st.nKey, info.service, b);
      if slot !in x.newT {
        x := Refer(x, slot, n);
      }
    }
  }

  lemma NewStepLoads(st: Stream, usable: bool, x: Man, n: nat)
    requires n < st.nNew && n < |st.news| && Loading(st.nKey, x, st.nNew, n)
    ensures Loading(st.nKey, NewStep(st, usable, x, n), st.nNew, n + 1)
  {
    var y := Append(x, n, Load(st.news[n]));
    AppendLoads(st.nKey, x, st.nNew, n, Load(st.news[n]));
    if !usable && HomeAt(st, n) !in y.newT {
      ReferLoads(st.nKey, y, st.nNew, n + 1, HomeAt(st, n), n);
    }
  }

  lemma NewStepReads(st: Stream, usable: bool, x: Man, n: nat)
    requires n < |st.news| && NewsRead(st, x.info, n)
    ensures NewsRead(st, NewStep(st, usable, x, n).info, n + 1)
  {
    var x' := NewStep(st, usable, x, n);
    forall k | 0 <= k < n + 1 ensures k in x'.info && Bare(x'.info[k]) == Load(st.news[k]) {
      if k < n { assert x'.info[k] == x.info[k]; }
    }
  }

  lemma NewStepTable(st: Stream, usable: bool, x: Man, n: nat)
    requires n < |st.news| && x.newT == StartTable(st, usable, n)
    ensures NewStep(st, usable, x, n).newT == StartTable(st, usable, n + 1) && NewStep(st, usable, x, n).triedT == x.triedT
  {
    StartNext(st, usable, n);
  }

  // After n new entries, whatever they are: all are read under their numbers, and without
  // usable lists the first for each slot has it.
  ghost predicate NewsGoing(st: Stream, usable: bool, x: Man, n: nat) {
    && NewsRead(st, x.info, n) && Loading(st.nKey, x, st.nNew, n) && InOrder(x.random, n)
    && x.newT == StartTable(st, usable, n) && x.triedT == map[]
  }

  lemma NewsStart(st: Stream, usable: bool)
    requires st.nNew >= 0
    ensures NewsGoing(st, usable, EMPTY, 0)
  {
    NothingLoaded(st.nKey, st.nNew);
  }

  lemma NewStepGoes(st: Stream, usable: bool, x: Man, n: nat)
    requires n < st.nNew && n < |st.news| && NewsGoing(st, usable, x, n)
    ensures NewsGoing(st, usable, NewStep(st, usable, x, n), n + 1)
  {
    NewStepLoads(st, usable, x, n);
    NewStepReads(st, usable, x, n);
    NewStepTable(st, usable, x, n);
    NewStepOrder(st, usable, x, n);
  }

  lemma NewStepOrder(st: Stream, usable: bool, x: Man, n: nat)
    requires n < |st.news| && InOrder(x.random, n)
    ensures InOrder(NewStep(st, usable, x, n).random, n + 1)
  {
  }

  // The loop over the new entries.
  method ReadNew(st: Stream, usable: bool) returns (x: Man, ended: bool)
    requires st.nNew >= 0
    ensures ended <==> |st.news| < st.nNew
    ensures ended || NewsGoing(st, usable, x, st.nNew)
  {
    x, ended := EMPTY, false;
    NewsStart(st, usable);
    for n := 0 to st.nNew
      invariant n <= |st.news| && NewsGoing(st, usable, x, n)
    {
      if n >= |st.news| {
        return x, true;
      }
      NewStepGoes(st, usable, x, n);
      x := ReadOneNew(st, x, n, usable);
    }
  }

  /******* The tried entries *******/

  // A tried entry is read, or lost just if its slot is taken.
  function TriedStep(st: Stream, x: Man, n: nat): Man
    requires n < |st.trieds|
  {
    if TriedSlotAt(st, n) in x.triedT then x else EnterTried(x, TriedSlotAt(st, n), Load(st.trieds[n]))
  }

  function TriedsTo(st: Stream, x: Man, n: nat): Man
    requires n <= |st.trieds|
  {
    if n == 0 then x else TriedStep(st, TriedsTo(st, x, n - 1), n - 1)
  }

  // After n tried entries: the first for each slot is kept and the others are lost, and the
  // entries are those of the stream that are read.
  ghost predicate TriedsGoing(st: Stream, x0: Man, x: Man, n: nat) {
    && 0 <= st.nNew <= x.nIdCount && n <= |st.trieds| && x.newT == x0.newT && InOrder(x.random, x.nIdCount)
    && Loading(st.nKey, x, st.nNew, x.nIdCount) && NewsRead(st, x.info, st.nNew) && TriedTaken(st, x.triedT, n)
    && (Whole(st) && n <= TriedCount(st) ==> OriginsTo(st, x, st.nNew + n))
  }

  lemma NewsFrom(st: Stream, x: Man)
    requires 0 <= st.nNew && NewsRead(st, x.info, st.nNew) && NumberedTo(x.info, st.nNew, st.nNew) && x.nIdCount == st.nNew
    ensures Whole(st) ==> OriginsTo(st, x, st.nNew)
  {
    if Whole(st) { OriginNews(st, st.nNew); }
  }

  lemma TriedsStart(st: Stream, usable: bool, x0: Man)
    requires st.nNew >= 0 && NewsGoing(st, usable, x0, st.nNew)
    ensures TriedsGoing(st, x0, x0.(nIdCount := st.nNew), 0)
  {
    var x := x0.(nIdCount := st.nNew);
    TabledSame(st.nKey, x0, x);
    NewsFrom(st, x);
  }

  lemma NewsStay(st: Stream, info: map<int, Info>, id: int, i: Info)
    requires NewsRead(st, info, st.nNew) && id >= st.nNew
    ensures NewsRead(st, info[id := i], st.nNew)
  {
  }

  lemma EnteredGoes(st: Stream, x0: Man, x: Man, n: nat)
    requires n < |st.trieds| && n < TriedCount(st) && TriedsGoing(st, x0, x, n) && KeptTried(st, n)
    requires TriedSlotAt(st, n) !in x.triedT
    ensures TriedsGoing(st, x0, EnterTried(x, TriedSlotAt(st, n), Load(st.trieds[n])), n + 1)
  {
    var y := EnterTried(x, TriedSlotAt(st, n), Load(st.trieds[n]));
    TakenNext(st, x.triedT, n, x.nIdCount);
    NewsStay(st, x.info, x.nIdCount, Load(st.trieds[n]).(fInTried := true, nRandomPos := |x.random|));
    EnterTriedLoads(st.nKey, x, st.nNew, Load(st.trieds[n]));
    if Whole(st) { EnteredOrigins(st, x, n); }
    assert InOrder(y.random, y.nIdCount);
  }

  lemma LostGoes(st: Stream, x0: Man, x: Man, n: nat)
    requires n < |st.trieds| && n < TriedCount(st) && TriedsGoing(st, x0, x, n) && !KeptTried(st, n)
    requires TriedSlotAt(st, n) in x.triedT
    ensures TriedsGoing(st, x0, x, n + 1)
  {
    TakenNext(st, x.triedT, n, 0);
    if Whole(st) { LostOrigins(st, x, n); }
  }

  lemma TriedStepGoes(st: Stream, x0: Man, x: Man, n: nat)
    requires n < |st.trieds| && n < TriedCount(st)
    ensures !TriedsGoing(st, x0, x, n) || TriedsGoing(st, x0, TriedStep(st, x, n), n + 1)
  {
    if TriedsGoing(st, x0, x, n) {
      FreeIffKept(st, x.triedT, n);
      if TriedSlotAt(st, n) in x.triedT { LostGoes(st, x0, x, n); } else { EnteredGoes(st, x0, x, n); }
    }
  }

  // What every turn keeps holds in the end.
  lemma {:induction false} TriedsKeep(st: Stream, x: Man, n: nat, p: (Man, nat) -> bool)
    requires n <= |st.trieds| && p(x, 0) && forall y, k | 0 <= k < n && p(y, k) :: p(TriedStep(st, y, k), k + 1)
    ensures p(TriedsTo(st, x, n), n)
  {
    if n > 0 {
      TriedsKeep(st, x, n - 1, p);
      assert p(TriedStep(st, TriedsTo(st, x, n - 1), n - 1), n - 1 + 1);
    }
  }

  lemma TriedsGo(st: Stream, x0: Man, x1: Man, n: nat)
    requires n <= |st.trieds| && n <= TriedCount(st) && TriedsGoing(st, x0, x1, 0)
    ensures TriedsGoing(st, x0, TriedsTo(st, x1, n), n)
  {
    forall y, k | 0 <= k < n && TriedsGoing(st, x0, y, k) ensures TriedsGoing(st, x0, TriedStep(st, y, k), k + 1) {
      TriedStepGoes(st, x0, y, k);
    }
    TriedsKeep(st, x1, n, (y: Man, k: nat) => TriedsGoing(st, x0, y, k));
  }

  // The loop over the tried entries.
  method TriedLoop(st: Stream, x1: Man) returns (x: Man, nLost: int, ended: bool)
    ensures ended <==> |st.trieds| < st.nTried
    ensures ended || (x == TriedsTo(st, x1, TriedCount(st)) && x.nIdCount + nLost == x1.nIdCount + TriedCount(st))
  {
    x, nLost, ended := x1, 0, false;
    for n := 0 to TriedCount(st)
      invariant n <= |st.trieds| && x == TriedsTo(st, x1, n) && x.nIdCount + nLost == x1.nIdCount + n
    {
      if n >= |st.trieds| {
        return x, nLost, true;
      }
      var info := Load(st.trieds[n]);
      var slot := TriedSlot(st.nKey, info.service);
      if slot !in x.triedT {
        x := EnterTried(x, slot, info);
      } else {
        nLost := nLost + 1;
      }
    }
  }

  method ReadTried(st: Stream, x0: Man, ghost usable: bool) returns (x: Man, nLost: int, ended: bool)
    requires st.nNew >= 0 && NewsGoing(st, usable, x0, st.nNew)
    ensures ended <==> |st.trieds| < st.nTried
    ensures ended || (TriedsGoing(st, x0, x, TriedCount(st)) && x.nIdCount == EntryCount(st) - nLost)
  {
    x, nLost, ended := TriedLoop(st, x0.(nIdCount := st.nNew));
    if !ended {
      TriedsStart(st, usable, x0);
      TriedsGo(st, x0, x0.(nIdCount := st.nNew), TriedCount(st));
    }
  }

  /******* The bucket lists *******/

  // While bucket lists are read: entries stay but for their counts, and so do tried slots.
  ghost predicate Referring(h: Hashes, x0: Man, x: Man, w: int) {
    && Loading(h, x, w, x.nIdCount) && Recounted(x0.info, x.info)
    && x.triedT == x0.triedT && x.random == x0.random && x.nIdCount == x0.nIdCount >= w
  }

  lemma ReferStays(h: Hashes, x0: Man, x: Man, w: int, s: Slot, id: int)
    requires Referring(h, x0, x, w) && s !in x.newT
    requires NewSlotOk(h, x.info, s, id) && x.info[id].nRefCount < NEW_BUCKETS_PER_ADDRESS
    ensures Referring(h, x0, Refer(x, s, id), w)
  {
    ReferLoads(h, x, w, x.nIdCount, s, id);
    RecountedOne(x0.info, x.info, id, x.info[id].nRefCount + 1);
  }

  ghost predicate Known(info: map<int, Info>, n: int) {
    forall k | 0 <= k < n :: k in info
  }

  // One number of a bucket's list: its entry gets the slot in the bucket if the lists are
  // usable, the slot is free and it has not eight yet.
  function NumberStep(st: Stream, usable: bool, x: Man, b: nat, nIndex: int): Man {
    if 0 <= nIndex < st.nNew && nIndex in x.info then
      var slot := NewSlot(st.nKey, x.info[nIndex].service, b);
      if usable && slot !in x.newT && x.info[nIndex].nRefCount < NEW_BUCKETS_PER_ADDRESS then Refer(x, slot, nIndex) else x
    else x
  }

  function ListTo(st: Stream, usable: bool, x: Man, b: nat, list: seq<int>, n: nat): Man
    requires n <= |list|
  {
    if n == 0 then x else NumberStep(st, usable, ListTo(st, usable, x, b, list, n - 1), b, list[n - 1])
  }

  function BucketsTo(st: Stream, usable: bool, x: Man, b: nat): Man
    requires b <= |st.buckets|
  {
    if b == 0 then x
    else ListTo(st, usable, BucketsTo(st, usable, x, b - 1), b - 1, st.buckets[b - 1], |st.buckets[b - 1]|)
  }

  lemma ClaimedIs(st: Stream, x: Man, b: nat, k: nat)
    requires k < st.nNew <= |st.news| && k in x.info && x.info[k].service == st.news[k].service
    requires x.info[k].nRefCount == |SlotsOf(x.newT, k)|
    ensures var s := NewSlot(st.nKey, x.info[k].service, b);
            Claimed(st, x.newT, b, k) == if s !in x.newT && x.info[k].nRefCount < NEW_BUCKETS_PER_ADDRESS then x.newT[s := k] else x.newT
  {
  }

  lemma EntryNumbers(st: Stream, x0: Man, x: Man, k: int)
    requires Referring(st.nKey, x0, x, st.nNew) && NewsRead(st, x0.info, st.nNew) && 0 <= k < st.nNew
    ensures k in x.info && x.info[k].service == st.news[k].service && x.info[k].nRefCount == |SlotsOf(x.newT, k)|
    ensures !x.info[k].fInTried
  {
    assert k in x0.info && Bare(x.info[k]) == Bare(x0.info[k]) == Load(st.news[k]);
    assert Bare(x.info[k]).service == x.info[k].service;
    assert EntryOk(st.nKey, x.info[k], k, x.newT, x.triedT);
  }

  // The state of the lists: what stays, and the table they have filled so far.
  ghost predicate Listing(st: Stream, x0: Man, x: Man, t: Table) {
    Referring(st.nKey, x0, x, st.nNew) && NewsRead(st, x0.info, st.nNew) && x.newT == t
  }

  lemma NumberStepGoes(st: Stream, usable: bool, x0: Man, x: Man, b: nat, nIndex: int, t: Table)
    requires st.nNew <= |st.news| && (usable ==> b < NEW_BUCKET_COUNT)
    ensures !Listing(st, x0, x, t) ||
            Listing(st, x0, NumberStep(st, usable, x, b, nIndex), if usable then Claimed(st, t, b, nIndex) else t)
  {
    if Listing(st, x0, x, t) && 0 <= nIndex < st.nNew {
      EntryNumbers(st, x0, x, nIndex);
      ClaimedIs(st, x, b, nIndex);
      var slot := NewSlot(st.nKey, x.info[nIndex].service, b);
      if usable && slot !in x.newT && x.info[nIndex].nRefCount < NEW_BUCKETS_PER_ADDRESS {
        ReferStays(st.nKey, x0, x, st.nNew, slot, nIndex);
      }
    }
  }

  lemma {:induction false} ListGoes(st: Stream, usable: bool, x0: Man, x: Man, b: nat, list: seq<int>, n: nat, t: Table)
    requires n <= |list| && st.nNew <= |st.news| && (usable ==> b < NEW_BUCKET_COUNT)
    ensures !Listing(st, x0, x, t) ||
            Listing(st, x0, ListTo(st, usable, x, b, list, n), if usable then ListTable(st, t, b, list, n) else t)
  {
    if n > 0 {
      ListGoes(st, usable, x0, x, b, list, n - 1, t);
      NumberStepGoes(st, usable, x0, ListTo(st, usable, x, b, list, n - 1), b, list[n - 1],
                     if usable then ListTable(st, t, b, list, n - 1) else t);
    }
  }

  lemma {:induction false} BucketsGo(st: Stream, usable: bool, x0: Man, b: nat)
    requires b <= |st.buckets| && st.nNew <= |st.news| && (usable ==> b <= NEW_BUCKET_COUNT && x0.newT == map[])
    ensures !Listing(st, x0, x0, x0.newT) ||
            Listing(st, x0, BucketsTo(st, usable, x0, b), if usable then BucketTable(st, b) else x0.newT)
  {
    if b > 0 {
      BucketsGo(st, usable, x0, b - 1);
      ListGoes(st, usable, x0, BucketsTo(st, usable, x0, b - 1), b - 1, st.buckets[b - 1], |st.buckets[b - 1]|,
               if usable then BucketTable(st, b - 1) else x0.newT);
    }
  }

  method ReadBucket(st: Stream, x0: Man, b: nat, list: seq<int>, usable: bool) returns (x: Man)
    requires Known(x0.info, st.nNew)
    ensures x == ListTo(st, usable, x0, b, list, |list|) && Known(x.info, st.nNew)
  {
    x := x0;
    for n := 0 to |list|
      invariant x == ListTo(st, usable, x0, b, list, n) && Known(x.info, st.nNew)
    {
      var nIndex := list[n];
      if 0 <= nIndex < st.nNew {
        var info := x.info[nIndex];
        var slot := NewSlot(st.nKey, info.service, b);
        if usable && slot !in x.newT && info.nRefCount < NEW_BUCKETS_PER_ADDRESS {
          x := Refer(x, slot, nIndex);
        }
      }
    }
  }

  // The loop over the bucket lists.
  method ListLoop(st: Stream, x0: Man, nUBuckets: int, usable: bool) returns (x: Man, ended: bool)
    requires Known(x0.info, st.nNew)
    ensures ended <==> |st.buckets| < nUBuckets
    ensures ended || x == BucketsTo(st, usable, x0, if nUBuckets < 0 then 0 else nUBuckets)
  {
    x, ended := x0, false;
    var b := 0;
    while b < nUBuckets
      invariant 0 <= b <= |st.buckets| && (b <= nUBuckets || b == 0)
      invariant x == BucketsTo(st, usable, x0, b) && Known(x.info, st.nNew)
    {
      if b >= |st.buckets| {
        return x, true;
      }
      x := ReadBucket(st, x, b, st.buckets[b], usable);
      b := b + 1;
    }
  }

  // Numbers take slots in order, if the lists are usable.
  method ReadBuckets(st: Stream, x0: Man, nUBuckets: int, usable: bool) returns (x: Man, ended: bool)
    requires st.nNew <= |st.news| && Known(x0.info, st.nNew)
    requires usable ==> x0.newT == map[] && nUBuckets == NEW_BUCKET_COUNT
    ensures ended <==> |st.buckets| < nUBuckets
    ensures ended || !Listing(st, x0, x0, x0.newT) || Listing(st, x0, x, if usable then BucketTable(st, NEW_BUCKET_COUNT) else x0.newT)
  {
    x, ended := ListLoop(st, x0, nUBuckets, usable);
    if !ended { BucketsGo(st, usable, x0, if nUBuckets < 0 then 0 else nUBuckets); }
  }

  /******* Pruning *******/

  // The final loop: just the new entries that got no slot go, and no assert fires.
  method Prune(h: Hashes, x0: Man) returns (x: Man)
    requires Sane(h, x0) && NewsCounted(x0) && x0.nIdCount >= 0 && forall id | id in x0.info :: 0 <= id < x0.nIdCount
    ensures Pruned(x0, x, x0.nIdCount) && Sane(h, x) && NewsCounted(x) && TriedIds(x.info) == TriedIds(x0.info)
    ensures AllStay(x0) ==> x == x0
  {
    x := x0;
    NothingPruned(x0);
    for id := 0 to x0.nIdCount
      invariant Pruned(x0, x, id) && Sane(h, x) && NewsCounted(x) && TriedIds(x.info) == TriedIds(x0.info)
      invariant AllStay(x0) ==> x == x0
    {
      if id in x.info && !x.info[id].fInTried && x.info[id].nRefCount == 0 {
        PruneOne(h, x0, x, id);
        x := Delete(x, id);
      } else {
        PruneNone(x0, x, id);
      }
    }
  }

  ghost predicate AllStay(x: Man) {
    forall id | id in x.info :: Stays(x.info[id])
  }

  ghost predicate NewsCounted(x: Man) {
    x.nNew == |NewIds(x.info)|
  }

  lemma PruneOne(h: Hashes, x0: Man, x: Man, id: int)
    requires Pruned(x0, x, id) && Sane(h, x) && NewsCounted(x)
    requires id in x.info && !x.info[id].fInTried && x.info[id].nRefCount == 0
    ensures CanDelete(x, id) && Pruned(x0, Delete(x, id), id + 1) && Sane(h, Delete(x, id)) && NewsCounted(Delete(x, id))
    ensures TriedIds(Delete(x, id).info) == TriedIds(x.info)
  {
    assert SameEntry(x0.info[id], x.info[id]);
    DeletePossibleSane(h, x, id);
    DeleteSame(x, id);
    DeleteSane(h, x, id);
    DeletedNext(x0, x, id, Delete(x, id));
    PrunedCounts(x, id, Delete(x, id));
  }

  lemma PruneNone(x0: Man, x: Man, id: int)
    requires Pruned(x0, x, id) && !(id in x.info && !x.info[id].fInTried && x.info[id].nRefCount == 0)
    ensures Pruned(x0, x, id + 1)
  {
    if id in x0.info {
      assert id in x.info && SameEntry(x0.info[id], x.info[id]);
    }
    KeptNext(x0, x, id);
  }

  /******* Unserialize *******/

  // Before pruning: the entries and slots are what the stream says, and everything is right
  // but perhaps the index of addresses and the count of tried entries.
  ghost predicate ReadRight(st: Stream, x: Man) {
    && AllLoaded(st, x) && TriedTaken(st, x.triedT, TriedCount(st)) && InOrder(x.random, x.nIdCount) && x.nNew == st.nNew
    && (if st.nTried < 0 then x.nTried == st.nTried else x.nTried == x.nIdCount - st.nNew)
  }

  // What is left of it.
  ghost predicate LoadedFrom(st: Stream, x: Man, y: Man) {
    && ReadRight(st, x) && Pruned(x, y, x.nIdCount) && (AllStay(x) ==> y == x)
    && Sane(st.nKey, y) && NewsCounted(y) && Referenced(y.info, {}) && TriedIds(y.info) == TriedIds(x.info)
  }

  // Which streams are accepted, what any of them gives, and when that is consistent.
  method Unserialize(st: Stream) returns (r: Loaded, ghost x: Man)
    ensures r.Rejected? <==> OverLimit(st) || Short(st)
    ensures r.Rejected? || (Consistent(st.nKey, r.man) <==> Loadable(st))
    ensures r.Rejected? || (if st.nNew < 0 then r.man.nNew == st.nNew else LoadedFrom(st, x, r.man))
  {
    x := EMPTY;
    if st.nKeySize != 32 {
      return Rejected, x;
    }
    if st.nNew > NEW_BUCKET_COUNT * BUCKET_SIZE || st.nTried > TRIED_BUCKET_COUNT * BUCKET_SIZE {
      return Rejected, x;
    }
    if st.nNew < 0 {
      r := ReadNegative(st);
    } else {
      r, x := ReadAll(st);
      if r.Ok? { LoadedIff(st, x, r.man); }
    }
  }

  lemma LoadedIff(st: Stream, x: Man, y: Man)
    requires st.nNew >= 0 && LoadedFrom(st, x, y)
    ensures Consistent(st.nKey, y) <==> Loadable(st)
  {
    ReadFacts(st, x);
    LoadingFacts(st.nKey, x, st.nNew);
    LoadedConsistentIff(st.nKey, x, y);
    UnsharedIff(st, x);
  }

  lemma {:induction false} OnlyTried(st: Stream, x: Man, n: nat)
    requires n <= |st.trieds| && x.info == map[]
    ensures TriedsTo(st, x, n).nNew == x.nNew && forall id | id in TriedsTo(st, x, n).info :: TriedsTo(st, x, n).info[id].fInTried
  {
    if n > 0 { OnlyTried(st, x, n - 1); }
  }

  // With a negative number of new entries the ids of the tried ones start below zero, no
  // number of a list is that of an entry, and there is nothing to prune.
  method ReadNegative(st: Stream) returns (r: Loaded)
    requires st.nNew < 0
    ensures r.Rejected? <==> Short(st)
    ensures r.Ok? ==> r.man.nNew == st.nNew && forall id | id in r.man.info :: r.man.info[id].fInTried
  {
    var x, nLost, ended := TriedLoop(st, EMPTY.(nNew := st.nNew, nIdCount := st.nNew));
    if ended {
      return Rejected;
    }
    OnlyTried(st, EMPTY.(nNew := st.nNew, nIdCount := st.nNew), TriedCount(st));
    var b := 0;
    while b < BucketCount(st)
      invariant 0 <= b <= |st.buckets| && (b <= BucketCount(st) || b == 0)
    {
      if b >= |st.buckets| {
        return Rejected;
      }
      b := b + 1;
    }
    r := Ok(x.(nTried := st.nTried - nLost));
  }

  lemma LoadingFacts(h: Hashes, x: Man, w: int)
    requires Loading(h, x, w, x.nIdCount)
    ensures AddrBack(x.info, x.addr) && AddrCovers(x.info, x.addr) && Sane(h, x)
    ensures forall id | id in x.info :: 0 <= id < x.nIdCount && x.info[id].nRefCount >= 0
  {
    forall id | id in x.info ensures 0 <= id < x.nIdCount && x.info[id].nRefCount >= 0 {
      assert EntryOk(h, x.info[id], id, x.newT, x.triedT);
    }
  }

  // The four loops, on counts within the limits.
  method ReadAll(st: Stream) returns (r: Loaded, ghost x: Man)
    requires st.nNew >= 0
    ensures r.Rejected? <==> Short(st)
    ensures r.Rejected? || LoadedFrom(st, x, r.man)
  {
    var y, ended := ReadTables(st);
    x := y;
    if ended {
      return Rejected, x;
    }
    ReadFacts(st, x);
    y := Prune(st.nKey, y);
    PrunedReferenced(x, y, x.nIdCount);
    r := Ok(y);
  }

  lemma ReadFacts(st: Stream, x: Man)
    requires ReadRight(st, x)
    ensures Sane(st.nKey, x) && NewsCounted(x) && |TriedIds(x.info)| == x.nIdCount - st.nNew
    ensures forall id | id in x.info :: 0 <= id < x.nIdCount && x.info[id].nRefCount >= 0
  {
    OriginNews(st, EntryCount(st));
    NumberedCounts(x.info, st.nNew, x.nIdCount);
    LoadingFacts(st.nKey, x, st.nNew);
  }

  method ReadTables(st: Stream) returns (x: Man, ended: bool)
    requires st.nNew >= 0
    ensures ended <==> Short(st)
    ensures ended || ReadRight(st, x)
  {
    var nUBuckets := BucketCount(st);
    var usable := st.nVersion == 1 && nUBuckets == NEW_BUCKET_COUNT;
    x, ended := ReadNew(st, usable);
    if ended {
      return;
    }
    var x0, nLost;
    x0, nLost, ended := ReadTried(st, x, usable);
    if ended {
      return;
    }
    EntriesRead(st, usable, x, x0);
    x, ended := ReadBuckets(st, x0, nUBuckets, usable);
    if ended {
      return;
    }
    ListsRight(st, x0, x, nLost);
    x := x.(nNew := st.nNew, nTried := st.nTried - nLost);
  }

  lemma EntriesRead(st: Stream, usable: bool, x1: Man, x: Man)
    requires st.nNew >= 0 && NewsGoing(st, usable, x1, st.nNew) && TriedsGoing(st, x1, x, TriedCount(st))
    ensures Listing(st, x, x, x.newT) && Known(x.info, st.nNew) && TriedsGoing(st, x, x, TriedCount(st))
    ensures x.newT == StartTable(st, usable, st.nNew)
  {
    RecountedRefl(x.info);
  }

  lemma RecountedRefl(info: map<int, Info>)
    ensures Recounted(info, info)
  {
  }

  lemma ListsRight(st: Stream, x0: Man, x1: Man, nLost: int)
    requires !Short(st) && TriedsGoing(st, x0, x0, TriedCount(st)) && x0.nIdCount == EntryCount(st) - nLost
    requires Referring(st.nKey, x0, x1, st.nNew) && x1.newT == NewTable(st)
    ensures ReadRight(st, x1.(nNew := st.nNew, nTried := st.nTried - nLost))
  {
    var x := x1.(nNew := st.nNew, nTried := st.nTried - nLost);
    TabledSame(st.nKey, x1, x);
    AllOrigins(st, x0, x);
    OriginNews(st, EntryCount(st));
    OriginFew(st, EntryCount(st));
  }

  lemma AllOrigins(st: Stream, x0: Man, x: Man)
    requires !Short(st) && Whole(st) && OriginsTo(st, x0, st.nNew + TriedCount(st))
    requires Recounted(x0.info, x.info) && x.nIdCount == x0.nIdCount
    ensures OriginsTo(st, x, EntryCount(st))
  {
    RecountedFrom(st, x0, x, EntryCount(st));
  }

  /******* Streams that are accepted and give no consistent manager *******/

  // One service among the new entries and the tried.
  method SharedLoads(h: Hashes, e: Saved) returns (r: Loaded)
    ensures r.Ok? && !Consistent(h, r.man)
  {
    var st := Stream(0, 32, h, 1, 1, 0, [e], [e], []);
    ghost var x;
    r, x := Unserialize(st);
    SharedService(st);
  }

  lemma SharedService(st: Stream)
    requires st.nVersion == 0 && st.nNew == 1 == |st.news| && st.nTried == 1 == |st.trieds| && !Short(st)
    requires st.news[0].service == st.trieds[0].service
    ensures !Loadable(st)
  {
    assert Kept(st, 0) && IsRead(st, 1);
    assert EntryAt(st, 0).service.ip == EntryAt(st, 1).service.ip;
  }

  // A negative number of new entries.
  method NegativeLoads(h: Hashes) returns (r: Loaded)
    ensures r.Ok? && !Consistent(h, r.man)
  {
    var st := Stream(0, 32, h, -1, 0, 0, [], [], []);
    ghost var x;
    r, x := Unserialize(st);
  }
}
