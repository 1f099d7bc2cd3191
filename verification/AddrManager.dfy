// CAddrMan as an object: the maps, vRandom and the two bucket arrays, changed
// in place.  Clock readings and random numbers are arguments or arbitrary
// choices.

module AddrManager {
  import opened AddrMan

  const HORIZON_DAYS := 7
  const RETRIES := 3
  const MAX_FAILURES := 10
  const MIN_FAIL_DAYS := 2
  const GETADDR_MAX_PCT := 23
  const GETADDR_MAX := 2500
  const DAY := 24 * 60 * 60

  predicate IsTerrible(i: Info, nNow: int) {
    if i.nLastTry != 0 && i.nLastTry >= nNow - 60 then false
    else
      || i.nTime > nNow + 10 * 60
      || i.nTime == 0 || nNow - i.nTime > HORIZON_DAYS * DAY
      || (i.nLastSuccess == 0 && i.nAttempts >= RETRIES)
      || (nNow - i.nLastSuccess > MIN_FAIL_DAYS * DAY && i.nAttempts >= MAX_FAILURES)
  }

  // nTime is a uint32.
  function U32(x: int): int { x % 0x1_0000_0000 }

  // A CAddress as handed in by a peer.
  datatype Address = Address(service: Service, nTime: int, nServices: bv64)

  function NewInfo(a: Address, source: NetAddr): Info {
    Info(a.service, source, a.nTime, a.nServices, 0, 0, 0, 0, 0, false, -1)
  }

  // The time a peer gives for an address is taken as older than it says.
  function Penalised(a: Address, nTimePenalty: int): Address {
    a.(nTime := U32(if a.nTime - nTimePenalty > 0 then a.nTime - nTimePenalty else 0))
  }

  // The periodic update of nTime and the services of a known entry.
  function Refreshed(info: Info, addr: Address, nTimePenalty: int, nNow: int): (r: Info)
    ensures SameEntry(info, r) && r.nRandomPos == info.nRandomPos
  {
    var nUpdateInterval := if nNow - addr.nTime < DAY then 60 * 60 else DAY;
    var seen :=
      if addr.nTime != 0 && (info.nTime == 0 || info.nTime < addr.nTime - nUpdateInterval - nTimePenalty)
      then U32(if addr.nTime - nTimePenalty > 0 then addr.nTime - nTimePenalty else 0)
      else info.nTime;
    info.(nTime := seen, nServices := info.nServices | addr.nServices)
  }

  // A connection to the address succeeded.
  function Succeeded(i: Info, nTime: int): (r: Info)
    ensures SameEntry(i, r) && r.nRandomPos == i.nRandomPos
  {
    i.(nLastSuccess := nTime, nLastTry := nTime, nAttempts := 0)
  }

  // A connection to the address was attempted; it counts as one more attempt if none
  // was counted since the last success of any address.
  function Attempted(i: Info, fCountFailure: bool, nTime: int, nLastGood: int): (r: Info)
    ensures SameEntry(i, r) && r.nRandomPos == i.nRandomPos
  {
    if fCountFailure && i.nLastCountAttempt < nLastGood
    then i.(nLastTry := nTime, nLastCountAttempt := nTime, nAttempts := i.nAttempts + 1)
    else i.(nLastTry := nTime)
  }

  ghost function TableOf(a: array2<int>): Table
    reads a
  {
    map b: nat, p: nat | b < a.Length0 && p < a.Length1 && a[b, p] != -1 :: Slot(b, p) := a[b, p]
  }

  method Write(a: array2<int>, b: nat, p: nat, v: int)
    requires b < a.Length0 && p < a.Length1
    modifies a
    ensures TableOf(a) == if v == -1 then old(TableOf(a)) - {Slot(b, p)} else old(TableOf(a))[Slot(b, p) := v]
  {
    ghost var was := TableOf(a);
    a[b, p] := v;
    ghost var now := TableOf(a);
    assert forall s: Slot | s != Slot(b, p) :: s in now <==> s in was;
    assert forall s: Slot | s != Slot(b, p) && s in now :: now[s] == was[s];
  }

  method Read(a: array2<int>, b: nat, p: nat) returns (v: int)
    requires b < a.Length0 && p < a.Length1
    ensures if Slot(b, p) in TableOf(a) then v == TableOf(a)[Slot(b, p)] && v != -1 else v == -1
  {
    v := a[b, p];
  }

  class AddrManager {
    const hashes: Hashes
    const routable: NetAddr -> bool
    const vvNew: array2<int>
    const vvTried: array2<int>
    var mapInfo: map<int, Info>
    var mapAddr: map<NetAddr, int>
    var vRandom: seq<int>
    var nNew: int
    var nTried: int
    var nIdCount: nat
    var nLastGood: int

    ghost predicate Shape() {
      && vvNew != vvTried
      && vvNew.Length0 == NEW_BUCKET_COUNT && vvNew.Length1 == BUCKET_SIZE
      && vvTried.Length0 == TRIED_BUCKET_COUNT && vvTried.Length1 == BUCKET_SIZE
    }

    ghost function Abs(): Man
      reads this, vvNew, vvTried
    {
      Man(mapInfo, mapAddr, vRandom, TableOf(vvNew), TableOf(vvTried), nNew, nTried, nIdCount)
    }

    // Everything Check_ tests but the time stamps.
    ghost predicate Valid()
      reads this, vvNew, vvTried
    {
      Shape() && Consistent(hashes, Abs())
    }

    constructor (hashes: Hashes, routable: NetAddr -> bool)
      ensures Valid() && Abs() == EMPTY && this.hashes == hashes && this.routable == routable
      ensures fresh(vvNew) && fresh(vvTried)
    {
      this.hashes := hashes;
      this.routable := routable;
      vvNew := new int[NEW_BUCKET_COUNT, BUCKET_SIZE]((_, _) => -1);
      vvTried := new int[TRIED_BUCKET_COUNT, BUCKET_SIZE]((_, _) => -1);
      mapInfo, mapAddr, vRandom := map[], map[], [];
      nNew, nTried, nIdCount, nLastGood := 0, 0, 0, 1;
      new;
      assert TableOf(vvNew) == map[] && TableOf(vvTried) == map[];
      assert NewIds(map[]) == {} && TriedIds(map[]) == {};
    }

    method SwapRandom(p: int, q: int)
      requires CanSwap(Abs(), p, q)
      modifies this`mapInfo, this`vRandom
      ensures Abs() == AddrMan.SwapRandom(old(Abs()), p, q)
    {
      if p == q {
        return;
      }
      assert p < |vRandom| && q < |vRandom|;
      var nId1, nId2 := vRandom[p], vRandom[q];
      assert nId1 in mapInfo && nId2 in mapInfo;
      mapInfo := mapInfo[nId1 := mapInfo[nId1].(nRandomPos := q)];
      mapInfo := mapInfo[nId2 := mapInfo[nId2].(nRandomPos := p)];
      vRandom := vRandom[p := nId2];
      vRandom := vRandom[q := nId1];
    }

    method Create(addr: Address, source: NetAddr) returns (nId: int)
      modifies this`mapInfo, this`mapAddr, this`vRandom, this`nIdCount
      ensures nId == old(nIdCount)
      ensures Abs() == AddrMan.Create(old(Abs()), NewInfo(addr, source))
    {
      nId := nIdCount;
      nIdCount := nIdCount + 1;
      mapInfo := mapInfo[nId := NewInfo(addr, source).(nRandomPos := |vRandom|)];
      mapAddr := mapAddr[addr.service.ip := nId];
      vRandom := vRandom + [nId];
    }

    method Delete(nId: int)
      requires CanDelete(Abs(), nId)
      modifies this`mapInfo, this`mapAddr, this`vRandom, this`nNew
      ensures Abs() == AddrMan.Delete(old(Abs()), nId)
    {
      assert nId in mapInfo;
      assert !mapInfo[nId].fInTried;
      assert mapInfo[nId].nRefCount == 0;
      ghost var target := AddrMan.Delete(Abs(), nId);
      DeleteIs(Abs(), nId);
      SwapSame(Abs(), mapInfo[nId].nRandomPos, |vRandom| - 1);
      SwapRandom(mapInfo[nId].nRandomPos, |vRandom| - 1);
      ghost var swapped := Abs();
      assert target == DropLast(swapped, nId);
      vRandom := vRandom[..|vRandom| - 1];
      mapAddr := mapAddr - {mapInfo[nId].service.ip};
      mapInfo := mapInfo - {nId};
      nNew := nNew - 1;
      assert Abs() == DropLast(swapped, nId);
    }

    method ClearNew(b: nat, p: nat)
      requires Shape() && b < NEW_BUCKET_COUNT && p < BUCKET_SIZE && CanClear(Abs(), Slot(b, p))
      modifies this`mapInfo, this`mapAddr, this`vRandom, this`nNew, vvNew
      ensures Abs() == AddrMan.ClearNew(old(Abs()), Slot(b, p))
    {
      var nIdDelete := Read(vvNew, b, p);
      if nIdDelete != -1 {
        assert mapInfo[nIdDelete].nRefCount > 0;
        mapInfo := mapInfo[nIdDelete := mapInfo[nIdDelete].(nRefCount := mapInfo[nIdDelete].nRefCount - 1)];
        Write(vvNew, b, p, -1);
        assert Abs() == Unref(old(Abs()), Slot(b, p), nIdDelete);
        if mapInfo[nIdDelete].nRefCount == 0 {
          Delete(nIdDelete);
        }
      }
    }

    // One round of the first loop of MakeTried.
    method StripBucket(nId: nat, bucket: nat)
      requires Shape() && nId in mapInfo && bucket < NEW_BUCKET_COUNT
      modifies this`mapInfo, vvNew
      ensures Abs() == StripOne(hashes, old(Abs()), nId, bucket)
    {
      var pos := GetBucketPosition(hashes, mapInfo[nId].service, true, bucket);
      var held := Read(vvNew, bucket, pos);
      if held == nId {
        Write(vvNew, bucket, pos, -1);
        mapInfo := mapInfo[nId := mapInfo[nId].(nRefCount := mapInfo[nId].nRefCount - 1)];
      }
    }

    method StripReferences(nId: nat)
      requires Shape() && nId in mapInfo
      modifies this`mapInfo, vvNew
      ensures Abs() == StripTo(hashes, old(Abs()), nId, NEW_BUCKET_COUNT)
    {
      for bucket := 0 to NEW_BUCKET_COUNT
        invariant Abs() == StripTo(hashes, old(Abs()), nId, bucket)
      {
        StripBucket(nId, bucket);
      }
    }

    method EvictFrom(kb: nat, kp: nat, nId: int)
      requires Shape() && kb < TRIED_BUCKET_COUNT && kp < BUCKET_SIZE && nId in mapInfo
      modifies this`mapInfo, this`nTried, vvTried
      ensures Abs() == Evict(old(Abs()), Slot(kb, kp), nId)
    {
      mapInfo := mapInfo[nId := mapInfo[nId].(fInTried := false)];
      Write(vvTried, kb, kp, -1);
      nTried := nTried - 1;
    }

    method ReadmitAt(b: nat, p: nat, nId: nat)
      requires Shape() && b < NEW_BUCKET_COUNT && p < BUCKET_SIZE && nId in mapInfo
      modifies this`mapInfo, this`nNew, vvNew
      ensures Abs() == Readmit(old(Abs()), Slot(b, p), nId)
    {
      mapInfo := mapInfo[nId := mapInfo[nId].(nRefCount := 1)];
      Write(vvNew, b, p, nId);
      nNew := nNew + 1;
    }

    method PromoteTo(kb: nat, kp: nat, nId: nat)
      requires Shape() && kb < TRIED_BUCKET_COUNT && kp < BUCKET_SIZE && nId in mapInfo
      modifies this`mapInfo, this`nTried, vvTried
      ensures Abs() == Promote(old(Abs()), Slot(kb, kp), nId)
    {
      Write(vvTried, kb, kp, nId);
      nTried := nTried + 1;
      mapInfo := mapInfo[nId := mapInfo[nId].(fInTried := true)];
    }

    // The entry in the way goes back to the new table.
    method VacateTried(kb: nat, kp: nat)
      requires Shape() && kb < TRIED_BUCKET_COUNT && kp < BUCKET_SIZE
      requires CanMakeRoom(hashes, Abs(), Slot(kb, kp)) && IdsAreNat(Abs())
      modifies this`mapInfo, this`mapAddr, this`vRandom, this`nNew, this`nTried, vvNew, vvTried
      ensures Abs() == MakeRoom(hashes, old(Abs()), Slot(kb, kp))
    {
      var nIdEvict := Read(vvTried, kb, kp);
      if nIdEvict != -1 {
        assert nIdEvict in mapInfo;
        var infoOld := mapInfo[nIdEvict];
        EvictFrom(kb, kp, nIdEvict);
        var nUBucket := GetNewBucket(hashes, infoOld.service, infoOld.source);
        var nUBucketPos := GetBucketPosition(hashes, infoOld.service, true, nUBucket);
        ClearNewTried(Abs(), Slot(nUBucket, nUBucketPos));
        ClearNew(nUBucket, nUBucketPos);
        assert vvNew[nUBucket, nUBucketPos] == -1 by { assert Slot(nUBucket, nUBucketPos) !in TableOf(vvNew); }
        ReadmitAt(nUBucket, nUBucketPos, nIdEvict);
      }
    }

    method MoveToTried(nId: nat)
      requires Shape() && CanMakeTried(hashes, Abs(), nId)
      requires IdsAreNat(Strip(hashes, Abs(), nId)) && Strip(hashes, Abs(), nId).info[nId].nRefCount == 0
      modifies this`mapInfo, this`mapAddr, this`vRandom, this`nNew, this`nTried, vvNew, vvTried
      ensures Abs() == AddrMan.MakeTried(hashes, old(Abs()), nId)
    {
      var service := mapInfo[nId].service;
      MakeTriedIs(hashes, Abs(), nId);
      StripReferences(nId);
      nNew := nNew - 1;
      assert mapInfo[nId].nRefCount == 0;
      var nKBucket := GetTriedBucket(hashes, service);
      var nKBucketPos := GetBucketPosition(hashes, service, false, nKBucket);
      MakeRoomEmpties(hashes, Abs(), Slot(nKBucket, nKBucketPos));
      VacateTried(nKBucket, nKBucketPos);
      assert vvTried[nKBucket, nKBucketPos] == -1 by { assert Slot(nKBucket, nKBucketPos) !in TableOf(vvTried); }
      PromoteTo(nKBucket, nKBucketPos, nId);
    }

    method MakeTried(nId: nat)
      requires Valid() && nId in mapInfo && !mapInfo[nId].fInTried
      modifies this`mapInfo, this`mapAddr, this`vRandom, this`nNew, this`nTried, vvNew, vvTried
      ensures Valid() && nId in mapInfo && mapInfo[nId].fInTried
      ensures Trimmed(old(mapInfo), mapInfo) && StatsKept(old(mapInfo), mapInfo)
      ensures TableOf(vvTried) == old(TableOf(vvTried))[TriedSlot(hashes, old(mapInfo)[nId].service) := nId]
    {
      MakeTriedKeeps(hashes, Abs(), nId);
      MakeTriedTable(hashes, Abs(), nId);
      MakeTriedTrims(hashes, Abs(), nId);
      MakeTriedStats(hashes, Abs(), nId);
      StripFrame(hashes, Abs(), nId);
      IdsNat(hashes, Strip(hashes, Abs(), nId));
      MoveToTried(nId);
    }

    /******* Good_ *******/

    // The search for a bucket the entry is in, from a random start; s is one.
    method FindBucket(nId: int, ghost s: Slot) returns (nUBucket: int)
      requires Shape() && nId in mapInfo && s in TableOf(vvNew) && TableOf(vvNew)[s] == nId
      requires s.bucket < NEW_BUCKET_COUNT && s == NewSlot(hashes, mapInfo[nId].service, s.bucket)
      ensures 0 <= nUBucket < NEW_BUCKET_COUNT
      ensures var t := NewSlot(hashes, mapInfo[nId].service, nUBucket); t in TableOf(vvNew) && TableOf(vvNew)[t] == nId
    {
      var nRnd: nat :| nRnd < NEW_BUCKET_COUNT;
      ghost var reach := if s.bucket >= nRnd then s.bucket - nRnd else s.bucket + NEW_BUCKET_COUNT - nRnd;
      for n := 0 to NEW_BUCKET_COUNT
        invariant n <= reach
      {
        var nB := (n + nRnd) % NEW_BUCKET_COUNT;
        var nBpos := GetBucketPosition(hashes, mapInfo[nId].service, true, nB);
        var held := Read(vvNew, nB, nBpos);
        if held == nId {
          return nB;
        }
      }
      nUBucket := -1;
    }

    // Whether this very service, port included, is known.
    ghost predicate Knows(addr: Service)
      reads this
    {
      addr.ip in mapAddr && mapAddr[addr.ip] in mapInfo && mapInfo[mapAddr[addr.ip]].service == addr
    }

    method Find(addr: NetAddr) returns (nId: int)
      requires Valid()
      ensures if addr in mapAddr then nId == mapAddr[addr] && nId >= 0 && nId in mapInfo else nId == -1
    {
      if addr in mapAddr {
        nId := mapAddr[addr];
        KnownId(hashes, Abs(), addr);
      } else {
        nId := -1;
      }
    }

    // Only the statistics of an entry change.
    method Update(nId: int, i: Info)
      requires Valid() && nId in mapInfo && SameEntry(mapInfo[nId], i) && i.nRandomPos == mapInfo[nId].nRandomPos
      modifies this`mapInfo
      ensures Valid() && mapInfo == old(mapInfo)[nId := i] && SameForTables(old(mapInfo), mapInfo)
    {
      StatsConsistent(hashes, Abs(), nId, i);
      PutSame(mapInfo, nId, i);
      mapInfo := mapInfo[nId := i];
      assert Abs() == Put(old(Abs()), nId, i);
    }

    // A known service ends up tried; the search for its bucket always succeeds.
    method Good(addr: Service, nTime: int)
      requires Valid()
      modifies this, vvNew, vvTried
      ensures Valid() && nLastGood == nTime
      ensures !old(Knows(addr)) ==> Abs() == old(Abs())
      ensures old(Knows(addr)) ==>
                var nId := old(mapAddr[addr.ip]);
                && nId in mapInfo && mapInfo[nId].fInTried
                && StatsKept(old(mapInfo)[nId := Succeeded(old(mapInfo)[nId], nTime)], mapInfo)
                && TableOf(vvTried) == old(TableOf(vvTried))[TriedSlot(hashes, addr) := nId]
      ensures Trimmed(old(mapInfo), mapInfo)
      ensures old(TimesOk(mapInfo)) ==> (TimesOk(mapInfo) <==> (old(Knows(addr)) ==> nTime > 0))
    {
      nLastGood := nTime;
      TrimmedRefl(mapInfo);
      var nId := Find(addr.ip);
      if nId == -1 {
        return;
      }
      if mapInfo[nId].service != addr {
        return;
      }
      ghost var was := mapInfo;
      Update(nId, Succeeded(mapInfo[nId], nTime));
      ghost var updated := mapInfo;
      if mapInfo[nId].fInTried {
        TrimmedRefl(updated);
        TriedThere(hashes, Abs(), nId);
      } else {
        MoveKnown(nId);
      }
      TrimmedSame(was, updated, mapInfo);
      GoodTimes(hashes, old(Abs()), nId, nTime, Abs());
    }

    method MoveKnown(nId: nat)
      requires Valid() && nId in mapInfo && !mapInfo[nId].fInTried
      modifies this`mapInfo, this`mapAddr, this`vRandom, this`nNew, this`nTried, vvNew, vvTried
      ensures Valid() && nId in mapInfo && mapInfo[nId].fInTried
      ensures Trimmed(old(mapInfo), mapInfo) && StatsKept(old(mapInfo), mapInfo)
      ensures TableOf(vvTried) == old(TableOf(vvTried))[TriedSlot(hashes, old(mapInfo)[nId].service) := nId]
    {
      ghost var s := HasSlot(hashes, Abs(), nId);
      var nUBucket := FindBucket(nId, s);
      assert nUBucket != -1;
      MakeTried(nId);
    }

    /******* Attempt_, Connected_, SetServices_ *******/

    method Attempt(addr: Service, fCountFailure: bool, nTime: int)
      requires Valid()
      modifies this`mapInfo
      ensures Valid() && SameForTables(old(mapInfo), mapInfo)
      ensures mapInfo == if !old(Knows(addr)) then old(mapInfo)
                         else
                           var nId := mapAddr[addr.ip];
                           old(mapInfo)[nId := Attempted(old(mapInfo)[nId], fCountFailure, nTime, nLastGood)]
    {
      var nId := Find(addr.ip);
      if nId != -1 && mapInfo[nId].service == addr {
        var i := Attempted(mapInfo[nId], fCountFailure, nTime, nLastGood);
        Update(nId, i);
      }
    }

    method Connected(addr: Service, nTime: int)
      requires Valid()
      modifies this`mapInfo
      ensures Valid() && SameForTables(old(mapInfo), mapInfo)
      ensures mapInfo == if !old(Knows(addr)) then old(mapInfo)
                         else
                           var nId := mapAddr[addr.ip]; var i := old(mapInfo)[nId];
                           if nTime - i.nTime > 20 * 60 then old(mapInfo)[nId := i.(nTime := U32(nTime))] else old(mapInfo)
    {
      var nId := Find(addr.ip);
      if nId != -1 && mapInfo[nId].service == addr {
        if nTime - mapInfo[nId].nTime > 20 * 60 {
          Update(nId, mapInfo[nId].(nTime := U32(nTime)));
        }
      }
    }

    method SetServices(addr: Service, nServices: bv64)
      requires Valid()
      modifies this`mapInfo
      ensures Valid() && SameForTables(old(mapInfo), mapInfo)
      ensures mapInfo == if !old(Knows(addr)) then old(mapInfo)
                         else
                           var nId := mapAddr[addr.ip];
                           old(mapInfo)[nId := old(mapInfo)[nId].(nServices := nServices)]
    {
      var nId := Find(addr.ip);
      if nId != -1 && mapInfo[nId].service == addr {
        Update(nId, mapInfo[nId].(nServices := nServices));
      }
    }

    /******* Add_ *******/

    method ReferAt(b: nat, p: nat, nId: nat)
      requires Shape() && b < NEW_BUCKET_COUNT && p < BUCKET_SIZE && nId in mapInfo
      modifies this`mapInfo, vvNew
      ensures Abs() == Refer(old(Abs()), Slot(b, p), nId)
    {
      mapInfo := mapInfo[nId := mapInfo[nId].(nRefCount := mapInfo[nId].nRefCount + 1)];
      Write(vvNew, b, p, nId);
    }

    // The tail of Add_: the entry gets the slot its source selects, or, if the
    // slot stays with its holder, goes again when it has no other.
    method Place(nId: nat, source: NetAddr, nNow: int)
      requires Shape() && Pending(hashes, Abs(), nId) && mapInfo[nId].nRefCount < NEW_BUCKETS_PER_ADDRESS
      modifies this`mapInfo, this`mapAddr, this`vRandom, this`nNew, vvNew
      ensures Valid()
      ensures Placed(old(mapInfo), nId, mapInfo) && StatsKept(old(mapInfo), mapInfo)
      ensures var s := NewSlot(hashes, old(mapInfo)[nId].service, GetNewBucket(hashes, old(mapInfo)[nId].service, source));
              if old(Takes(Abs(), s, nId, nNow))
              then s in TableOf(vvNew) && TableOf(vvNew)[s] == nId && nId in mapInfo
              else TableOf(vvNew) == old(TableOf(vvNew)) && (nId in mapInfo <==> old(mapInfo)[nId].nRefCount > 0)
    {
      ghost var m := Abs();
      var service := mapInfo[nId].service;
      var nUBucket := GetNewBucket(hashes, service, source);
      var nUBucketPos := GetBucketPosition(hashes, service, true, nUBucket);
      ghost var s := Slot(nUBucket, nUBucketPos);
      var held := Read(vvNew, nUBucket, nUBucketPos);
      if held != nId {
        var fInsert := held == -1;
        if !fInsert {
          HeldKnown(hashes, m, s);
          var infoExisting := mapInfo[held];
          if IsTerrible(infoExisting, nNow) || (infoExisting.nRefCount > 1 && mapInfo[nId].nRefCount == 0) {
            fInsert := true;
          }
        }
        if fInsert {
          InsertLands(hashes, m, s, nId);
          InsertTrims(hashes, m, s, nId);
          InsertStats(m, s, nId);
          ClearNew(nUBucket, nUBucketPos);
          ReferAt(nUBucket, nUBucketPos, nId);
          TrimmedPlaced(m.info, nId, mapInfo);
        } else if mapInfo[nId].nRefCount == 0 {
          DropLands(hashes, m, nId);
          DeleteStats(m, nId);
          DeleteSame(m, nId);
          Delete(nId);
          OthersPlaced(m.info, nId, mapInfo);
        } else {
          EntryRefs(hashes, m, nId);
          PlacedRefl(m.info, nId);
        }
      } else {
        AlreadyThere(hashes, m, s, nId);
        PlacedRefl(m.info, nId);
      }
    }

    // The stochastic test: a reference more is 2^nRefCount times harder to get.
    static method Lucky(nRefCount: int) returns (go: bool)
      ensures nRefCount <= 0 ==> go
    {
      var nFactor, n := 1, 0;
      while n < nRefCount
        invariant nFactor >= 1 && (nRefCount <= 0 ==> nFactor == 1)
      {
        nFactor := nFactor * 2;
        n := n + 1;
      }
      var roll: nat :| roll < nFactor;
      go := !(nFactor > 1 && roll != 0);
    }

    // What Add_ does with an address it already has; `go` says whether it goes on
    // to give the address one more slot.
    method Refresh(nId: nat, addr: Address, nTimePenalty: int, nNow: int) returns (go: bool)
      requires Valid() && nId in mapInfo
      modifies this`mapInfo
      ensures Valid() && SameForTables(old(mapInfo), mapInfo)
      ensures mapInfo == old(mapInfo)[nId := Refreshed(old(mapInfo)[nId], addr, nTimePenalty, nNow)]
      ensures go ==> addr.nTime != 0 && (mapInfo[nId].nTime == 0 || mapInfo[nId].nTime < addr.nTime)
      ensures go ==> !mapInfo[nId].fInTried && mapInfo[nId].nRefCount < NEW_BUCKETS_PER_ADDRESS
    {
      var info := Refreshed(mapInfo[nId], addr, nTimePenalty, nNow);
      RefBounds(hashes, Abs(), nId);
      Update(nId, info);
      if addr.nTime == 0 || (info.nTime != 0 && addr.nTime <= info.nTime) {
        return false;
      }
      if info.fInTried {
        return false;
      }
      if info.nRefCount == NEW_BUCKETS_PER_ADDRESS {
        return false;
      }
      go := Lucky(info.nRefCount);
    }

    // The start of Add_ for an address it does not have.
    method Enter(addr: Address, source: NetAddr, nTimePenalty: int) returns (nId: nat)
      requires Valid() && addr.service.ip !in mapAddr
      modifies this`mapInfo, this`mapAddr, this`vRandom, this`nNew, this`nIdCount
      ensures Shape() && Pending(hashes, Abs(), nId) && mapInfo[nId].nRefCount == 0 && nId == old(nIdCount)
      ensures nId !in old(mapInfo) && mapInfo.Keys == old(mapInfo).Keys + {nId as int}
      ensures forall k | k in old(mapInfo) :: mapInfo[k] == old(mapInfo)[k]
      ensures Stats(mapInfo[nId]) == Stats(NewInfo(Penalised(addr, nTimePenalty), source))
    {
      // The penalty is taken off before the entry is filed; it changes nTime only.
      var a := Penalised(addr, nTimePenalty);
      CreatePends(hashes, Abs(), NewInfo(a, source));
      NextIdFresh(hashes, Abs());
      nId := Create(a, source);
      nNew := nNew + 1;
    }

    // Add_ for an address it has.
    method AddKnown(nId: nat, addr: Address, source: NetAddr, nTimePenalty: int, nNow: int)
      requires Valid() && nId in mapInfo
      modifies this`mapInfo, this`mapAddr, this`vRandom, this`nNew, vvNew
      ensures Valid() && AddKeeps(old(mapInfo), nIdCount, mapInfo, false) && nId in mapInfo
      ensures StatsKept(old(mapInfo)[nId := Refreshed(old(mapInfo)[nId], addr, nTimePenalty, nNow)], mapInfo)
    {
      ghost var was := mapInfo;
      var go := Refresh(nId, addr, nTimePenalty, nNow);
      AddKeepsSame(was, nIdCount, mapInfo);
      if !go {
        return;
      }
      ghost var updated := mapInfo;
      StillReferenced(hashes, Abs(), nId);
      Place(nId, source, nNow);
      AddKeepsKnown(was, nIdCount, updated, nId, mapInfo);
    }

    // Add_ for an address it does not have; the new entry may be dropped at once.
    method AddNew(addr: Address, source: NetAddr, nTimePenalty: int, nNow: int)
      requires Valid() && addr.service.ip !in mapAddr
      modifies this`mapInfo, this`mapAddr, this`vRandom, this`nNew, this`nIdCount, vvNew
      ensures Valid() && AddKeeps(old(mapInfo), old(nIdCount), mapInfo, true)
      ensures StatsKept(old(mapInfo)[old(nIdCount) := NewInfo(Penalised(addr, nTimePenalty), source)], mapInfo)
      ensures Knows(addr.service) <==> old(Admits(hashes, Abs(), addr.service, source, nNow))
    {
      ghost var was, m := mapInfo, Abs();
      var nId := Enter(addr, source, nTimePenalty);
      AdmitsTakes(hashes, m, Abs(), nId, addr.service, source, nNow);
      ghost var entered := mapInfo;
      Place(nId, source, nNow);
      AddKeepsNew(was, nId, entered, mapInfo);
      StatsTrans(was[nId := NewInfo(Penalised(addr, nTimePenalty), source)], entered, mapInfo);
      KnownIff(hashes, m, Abs(), nId, NewInfo(Penalised(addr, nTimePenalty), source));
    }

    method Add(addr: Address, source: NetAddr, nTimePenalty: int, nNow: int) returns (fNew: bool)
      requires Valid()
      modifies this`mapInfo, this`mapAddr, this`vRandom, this`nNew, this`nIdCount, vvNew
      ensures Valid()
      ensures fNew <==> routable(addr.service.ip) && addr.service.ip !in old(mapAddr)
      ensures AddKeeps(old(mapInfo), old(nIdCount), mapInfo, fNew)
      ensures !routable(addr.service.ip) ==> Abs() == old(Abs())
      ensures fNew ==> (Knows(addr.service) <==> old(Admits(hashes, Abs(), addr.service, source, nNow)))
      ensures routable(addr.service.ip) ==>
                var penalty := if addr.service.ip == source then 0 else nTimePenalty;
                if fNew then StatsKept(old(mapInfo)[old(nIdCount) := NewInfo(Penalised(addr, penalty), source)], mapInfo)
                else
                  var nId := old(mapAddr)[addr.service.ip];
                  nId in mapInfo && nId in old(mapInfo) &&
                  StatsKept(old(mapInfo)[nId := Refreshed(old(mapInfo)[nId], addr, penalty, nNow)], mapInfo)
    {
      AddKeepsRefl(mapInfo, nIdCount, false);
      if !routable(addr.service.ip) {
        return false;
      }
      var nId := Find(addr.service.ip);
      var penalty := if addr.service.ip == source then 0 else nTimePenalty;
      if nId != -1 {
        AddKnown(nId, addr, source, penalty, nNow);
        fNew := false;
      } else {
        AddNew(addr, source, penalty, nNow);
        fNew := true;
      }
    }

    /******* GetAddr_ *******/

    // One round: a random later place is swapped into place n.
    method Draw(n: nat) returns (nId: int)
      requires Valid() && n < |vRandom|
      modifies this`mapInfo, this`vRandom
      ensures Valid() && DrawnAt(old(Abs()), n, Abs()) && nId == vRandom[n]
    {
      var nRndPos: nat :| n <= nRndPos < |vRandom|;
      DrawSwaps(hashes, Abs(), n, nRndPos);
      SwapRandom(n, nRndPos);
      nId := vRandom[n];
    }

    // One turn of the loop of GetAddr_.
    method Pick(n: nat, nNow: int, vAddr0: seq<Service>, ghost was: Man, ghost ids0: seq<int>)
      returns (vAddr: seq<Service>, ghost ids: seq<int>)
      requires Valid() && n < |vRandom| && Sampled(was, Abs(), n, nNow, ids0, vAddr0)
      modifies this`mapInfo, this`vRandom
      ensures Valid() && |vRandom| == old(|vRandom|) && |vAddr0| <= |vAddr| <= |vAddr0| + 1
      ensures Sampled(was, Abs(), n + 1, nNow, ids, vAddr)
    {
      ghost var before := Abs();
      var nId := Draw(n);
      SampledDraw(was, before, n, nNow, ids0, vAddr0, Abs());
      if IsTerrible(mapInfo[nId], nNow) {
        SampledSkip(was, Abs(), n, nNow, ids0, vAddr0);
        vAddr, ids := vAddr0, ids0;
      } else {
        SampledTake(was, Abs(), n, nNow, ids0, vAddr0);
        vAddr, ids := vAddr0 + [mapInfo[nId].service], ids0 + [nId];
      }
    }

    // A random selection of addresses: no address twice, none of them terrible, as
    // many as allowed or else every one there is; and the manager changes only in
    // the order of vRandom.
    method GetAddr(nNow: int) returns (vAddr: seq<Service>)
      requires Valid()
      modifies this`mapInfo, this`vRandom
      ensures Valid() && Reordered(old(Abs()), Abs())
      ensures |vAddr| <= MaxOffered(|vRandom|)
      ensures forall k | 0 <= k < |vAddr| :: Offered(old(mapInfo), nNow, vAddr[k])
      ensures forall j, k | 0 <= j < k < |vAddr| :: vAddr[j].ip != vAddr[k].ip
      ensures |vAddr| < MaxOffered(|vRandom|) ==>
                forall id | id in old(mapInfo) :: old(mapInfo)[id].service in vAddr || IsTerrible(old(mapInfo)[id], nNow)
    {
      ghost var was := Abs();
      ghost var ids: seq<int> := [];
      var nNodes := GETADDR_MAX_PCT * |vRandom| / 100;
      if nNodes > GETADDR_MAX {
        nNodes := GETADDR_MAX;
      }
      vAddr := [];
      var n := 0;
      SampledNone(was, nNow);
      while n < |vRandom| && |vAddr| < nNodes
        invariant Valid() && |vRandom| == |was.random| && n <= |vRandom| && |vAddr| <= nNodes
        invariant Sampled(was, Abs(), n, nNow, ids, vAddr)
      {
        vAddr, ids := Pick(n, nNow, vAddr, was, ids);
        n := n + 1;
      }
      SampleSound(hashes, was, Abs(), n, nNow, ids, vAddr);
      if n == |vRandom| {
        SampleComplete(hashes, was, Abs(), nNow, ids, vAddr);
      }
    }
  }

  // 23 in 100 of the addresses, and 2500 at most.
  function MaxOffered(n: nat): nat {
    if GETADDR_MAX_PCT * n / 100 > GETADDR_MAX then GETADDR_MAX else GETADDR_MAX_PCT * n / 100
  }

  // Whether an entry takes a new slot: it is free or its own, or its holder is terrible
  // or has other slots while the entry has none.
  ghost predicate Takes(m: Man, s: Slot, id: int, nNow: int)
    requires id in m.info
  {
    s in m.newT && m.newT[s] != id && m.newT[s] in m.info ==>
      var held := m.info[m.newT[s]];
      IsTerrible(held, nNow) || (held.nRefCount > 1 && m.info[id].nRefCount == 0)
  }

  // Whether a new address gets the slot its source selects, and so is not dropped at once.
  ghost predicate Admits(h: Hashes, m: Man, service: Service, source: NetAddr, nNow: int) {
    var s := NewSlot(h, service, GetNewBucket(h, service, source));
    s in m.newT && m.newT[s] in m.info ==> IsTerrible(m.info[m.newT[s]], nNow) || m.info[m.newT[s]].nRefCount > 1
  }

  lemma AdmitsTakes(h: Hashes, m: Man, m': Man, id: int, service: Service, source: NetAddr, nNow: int)
    requires Tabled(h, m) && id !in m.info && id in m'.info && m'.info[id].nRefCount == 0 && m'.newT == m.newT
    requires forall k | k in m.info :: k in m'.info && m'.info[k] == m.info[k]
    ensures var s := NewSlot(h, service, GetNewBucket(h, service, source));
            Takes(m', s, id, nNow) <==> Admits(h, m, service, source, nNow)
  {
    var s := NewSlot(h, service, GetNewBucket(h, service, source));
    if s in m.newT { HeldKnown(h, m, s); }
  }

  // Of the entries afterwards only the new one can have its address.
  lemma KnownIff(h: Hashes, m: Man, m': Man, id: int, i: Info)
    requires Indexed(m) && Indexed(m') && id !in m.info && i.service.ip !in m.addr
    requires StatsKept(m.info[id := i], m'.info)
    ensures id in m'.info <==> i.service.ip in m'.addr && m'.addr[i.service.ip] in m'.info && m'.info[m'.addr[i.service.ip]].service == i.service
  {
    forall k | k in m'.info ensures m'.info[k].service == m.info[id := i][k].service {
      assert Stats(m'.info[k]).service == m'.info[k].service;
      assert Stats(m.info[id := i][k]).service == m.info[id := i][k].service;
    }
    if i.service.ip in m'.addr {
      var k := m'.addr[i.service.ip];
      assert k in m'.info && m'.info[k].service.ip == i.service.ip;
    }
  }

  // The times of entries as Check_ wants them: none negative, and those of tried entries
  // with a success.
  ghost predicate TimesOk(info: map<int, Info>) {
    forall id | id in info :: TimeOk(info[id])
  }

  ghost predicate TimeOk(i: Info) {
    i.nLastTry >= 0 && i.nLastSuccess >= 0 && (i.fInTried ==> i.nLastSuccess != 0)
  }

  lemma TriedThere(h: Hashes, m: Man, id: int)
    requires Consistent(h, m) && id in m.info && m.info[id].fInTried
    ensures m.triedT[TriedSlot(h, m.info[id].service) := id] == m.triedT
  {
    assert EntryOk(h, m.info[id], id, m.newT, m.triedT);
  }

  // An entry in the tried table was there before, unless it has just got its slot.
  lemma TriedWas(h: Hashes, m: Man, m': Man, k: int)
    requires Tabled(h, m) && Tabled(h, m') && k in m'.info && m'.info[k].fInTried
    requires forall s | s in m'.triedT && m'.triedT[s] == k :: s in m.triedT && m.triedT[s] == k
    ensures k in m.info && m.info[k].fInTried
  {
    assert EntryOk(h, m'.info[k], k, m'.newT, m'.triedT);
    var s := TriedSlot(h, m'.info[k].service);
    assert s in m.triedT && TriedSlotOk(h, m.info, s, m.triedT[s]);
  }

  lemma StatsTimes(i: Info, i': Info)
    requires Stats(i') == Stats(i)
    ensures i'.nLastTry == i.nLastTry && i'.nLastSuccess == i.nLastSuccess
  {
    assert Stats(i').nLastTry == i'.nLastTry && Stats(i').nLastSuccess == i'.nLastSuccess;
    assert Stats(i).nLastTry == i.nLastTry && Stats(i).nLastSuccess == i.nLastSuccess;
  }

  // With the tried table as it was, times stay as they have to be.
  lemma TimesStay(h: Hashes, m: Man, info: map<int, Info>, m': Man)
    requires Tabled(h, m) && Tabled(h, m') && m'.triedT == m.triedT && TimesOk(m.info)
    requires StatsKept(info, m'.info) && forall k | k in info :: AsBefore(m.info, info, k)
    ensures TimesOk(m'.info)
  {
    forall k | k in m'.info ensures TimeOk(m'.info[k]) {
      StatsTimes(info[k], m'.info[k]);
      assert AsBefore(m.info, info, k);
      if m'.info[k].fInTried { TriedWas(h, m, m', k); }
    }
  }

  // Attempt_ keeps the times as they have to be exactly if it is given one that is not
  // negative.
  lemma AttemptTimes(info: map<int, Info>, id: int, fCountFailure: bool, nTime: int, nLastGood: int)
    requires id in info
    ensures !TimesOk(info) || (TimesOk(info[id := Attempted(info[id], fCountFailure, nTime, nLastGood)]) <==> nTime >= 0)
  {
    var i := Attempted(info[id], fCountFailure, nTime, nLastGood);
    var info' := info[id := i];
    assert info'[id] == i;
  }

  // An entry has the times it had, or is new and has none.
  ghost predicate AsBefore(info: map<int, Info>, info': map<int, Info>, k: int)
    requires k in info'
  {
    if k in info then info'[k].nLastTry == info[k].nLastTry && info'[k].nLastSuccess == info[k].nLastSuccess
    else info'[k].nLastTry == 0 && info'[k].nLastSuccess == 0
  }

  // Good_ keeps the times as they have to be exactly if it is given a positive one.
  lemma GoodTimes(h: Hashes, m: Man, id: int, nTime: int, m': Man)
    requires Tabled(h, m) && Tabled(h, m') && id in m.info && id in m'.info && m'.info[id].fInTried
    requires m'.triedT == m.triedT[TriedSlot(h, m.info[id].service) := id]
    requires StatsKept(m.info[id := Succeeded(m.info[id], nTime)], m'.info)
    ensures TimesOk(m.info) ==> (TimesOk(m'.info) <==> nTime > 0)
  {
    var info := m.info[id := Succeeded(m.info[id], nTime)];
    StatsTimes(info[id], m'.info[id]);
    if TimesOk(m.info) && nTime > 0 {
      forall k | k in m'.info ensures TimeOk(m'.info[k]) {
        StatsTimes(info[k], m'.info[k]);
        if k != id {
          assert TimeOk(m.info[k]);
          if m'.info[k].fInTried { TriedWas(h, m, m', k); }
        }
      }
    }
  }

  ghost predicate IdsAreNat(m: Man) {
    forall id | id in m.info :: id >= 0
  }

  lemma IdsNat(h: Hashes, m: Man)
    requires Linked(h, m)
    ensures IdsAreNat(m)
  {
  }

  lemma KnownId(h: Hashes, m: Man, a: NetAddr)
    requires Linked(h, m) && a in m.addr
    ensures m.addr[a] in m.info && m.addr[a] >= 0
  {
    var id := m.addr[a];
    assert id in m.info;
  }

  // No entry appears, and one that is dropped was new with a single reference,
  // or is the entry being placed, which had none.
  ghost predicate Placed(info: map<int, Info>, id: int, info': map<int, Info>) {
    && (forall k | k in info' :: k in info && info'[k].service == info[k].service)
    && (forall k | k in info :: k in info' || OneReference(info[k]) || (k == id && info[id].nRefCount == 0))
    && (id in info && info[id].nRefCount > 0 ==> id in info')
  }

  lemma TrimmedPlaced(info: map<int, Info>, id: int, info': map<int, Info>)
    requires Trimmed(info, info') && id in info'
    ensures Placed(info, id, info')
  {
  }

  lemma OthersPlaced(info: map<int, Info>, id: int, info': map<int, Info>)
    requires id in info && info[id].nRefCount == 0 && OthersKept(info, id, info') && id !in info'
    ensures Placed(info, id, info')
  {
    forall k | k in info' ensures k in info && info'[k].service == info[k].service {
      assert k in info && k != id && SameEntry(info[k], info'[k]);
    }
  }

  lemma PlacedRefl(info: map<int, Info>, id: int)
    ensures Placed(info, id, info)
  {
  }

  lemma HeldKnown(h: Hashes, m: Man, s: Slot)
    requires Tabled(h, m) && s in m.newT
    ensures m.newT[s] in m.info
  {
    assert NewSlotOk(h, m.info, s, m.newT[s]);
  }

  lemma NextIdFresh(h: Hashes, m: Man)
    requires Linked(h, m)
    ensures m.nIdCount !in m.info
  {
  }

  lemma RefBounds(h: Hashes, m: Man, id: int)
    requires Tabled(h, m) && id in m.info
    ensures 0 <= m.info[id].nRefCount <= NEW_BUCKETS_PER_ADDRESS
  {
    assert EntryOk(h, m.info[id], id, m.newT, m.triedT);
  }

  lemma StillReferenced(h: Hashes, m: Man, id: int)
    requires Consistent(h, m) && id in m.info && !m.info[id].fInTried
    ensures Pending(h, m, id) && m.info[id].nRefCount > 0
  {
  }

  // What Add_ may do to the set of entries: the new one may join, and an entry
  // that is dropped was new with a single reference.
  ghost predicate AddKeeps(info: map<int, Info>, next: int, info': map<int, Info>, fNew: bool) {
    && (forall k | k in info :: k in info' || OneReference(info[k]))
    && (forall k | k in info' :: k in info || (fNew && k == next))
  }

  lemma AddKeepsRefl(info: map<int, Info>, next: int, fNew: bool)
    ensures AddKeeps(info, next, info, fNew)
  {
  }

  lemma AddKeepsSame(info: map<int, Info>, next: int, info': map<int, Info>)
    requires SameForTables(info, info')
    ensures AddKeeps(info, next, info', false)
  {
  }

  lemma AddKeepsKnown(info: map<int, Info>, next: int, info1: map<int, Info>, id: int, info2: map<int, Info>)
    requires SameForTables(info, info1) && id in info1 && info1[id].nRefCount > 0 && Placed(info1, id, info2)
    ensures AddKeeps(info, next, info2, false)
  {
    forall k | k in info ensures k in info2 || OneReference(info[k]) {
      assert SameEntry(info[k], info1[k]);
    }
  }

  lemma AddKeepsNew(info: map<int, Info>, id: int, info1: map<int, Info>, info2: map<int, Info>)
    requires info1.Keys == info.Keys + {id} && id !in info && Placed(info1, id, info2)
    requires forall k | k in info :: info1[k] == info[k]
    ensures AddKeeps(info, id, info2, true)
  {
    forall k | k in info ensures k in info2 || OneReference(info[k]) {
      assert k in info1 && k != id;
    }
    forall k | k in info2 ensures k in info || k == id {
      assert k in info1;
    }
  }

  // Entries that differ in their places in vRandom only.
  ghost predicate SameButPlaces(info: map<int, Info>, info': map<int, Info>) {
    && info'.Keys == info.Keys
    && forall id | id in info :: info'[id].(nRandomPos := 0) == info[id].(nRandomPos := 0)
  }

  // The same manager with vRandom in another order.
  ghost predicate Reordered(m: Man, m': Man) {
    && SameButPlaces(m.info, m'.info) && m' == m.(info := m'.info, random := m'.random)
    && |m'.random| == |m.random| && multiset(m'.random) == multiset(m.random)
  }

  // ... from place n on, with a known entry in place n that is not before it.
  ghost predicate DrawnAt(m: Man, n: nat, m': Man) {
    && Reordered(m, m') && n < |m'.random|
    && m'.random[..n] == m.random[..n] && m'.random[n] in m'.info && m'.random[n] !in m'.random[..n]
  }

  lemma PlaceUnique(m: Man, n: nat)
    requires Indexed(m) && n < |m.random|
    ensures m.random[n] in m.info && m.random[n] !in m.random[..n]
  {
    forall k | 0 <= k < n ensures m.random[k] != m.random[n] {
      assert m.info[m.random[k]].nRandomPos == k && m.info[m.random[n]].nRandomPos == n;
    }
  }

  lemma SwapReorders(m: Man, n: nat, q: nat)
    requires CanSwap(m, n, q) && n <= q < |m.random|
    ensures Reordered(m, SwapRandom(m, n, q)) && SwapRandom(m, n, q).random[..n] == m.random[..n]
  {
    SwapSame(m, n, q);
    SwapStats(m, n, q);
  }

  lemma DrawSwaps(h: Hashes, m: Man, n: nat, q: nat)
    requires Consistent(h, m) && n <= q < |m.random|
    ensures CanSwap(m, n, q) && Consistent(h, SwapRandom(m, n, q)) && DrawnAt(m, n, SwapRandom(m, n, q))
  {
    SwapConsistent(h, m, n, q);
    SwapReorders(m, n, q);
    PlaceUnique(SwapRandom(m, n, q), n);
  }

  // A service of an entry that is not terrible.
  ghost predicate Offered(info: map<int, Info>, nNow: int, s: Service) {
    exists id :: id in info && info[id].service == s && !IsTerrible(info[id], nNow)
  }

  // The services drawn so far and the distinct entries they are from.
  ghost predicate Drawn(info: map<int, Info>, nNow: int, ids: seq<int>, vAddr: seq<Service>) {
    && |ids| == |vAddr|
    && (forall k | 0 <= k < |ids| :: ids[k] in info && info[ids[k]].service == vAddr[k] && !IsTerrible(info[ids[k]], nNow))
    && (forall j, k | 0 <= j < k < |ids| :: ids[j] != ids[k])
  }

  // Every entry among `seen` is drawn or terrible.
  ghost predicate Covered(info: map<int, Info>, nNow: int, ids: seq<int>, seen: seq<int>) {
    forall k | 0 <= k < |seen| :: seen[k] in ids || (seen[k] in info && IsTerrible(info[seen[k]], nNow))
  }

  // The state of GetAddr_ before round n.
  ghost predicate Sampled(was: Man, m: Man, n: nat, nNow: int, ids: seq<int>, vAddr: seq<Service>) {
    && Taken(was, m, n, nNow, ids, vAddr)
    && Covered(was.info, nNow, ids, m.random[..n])
  }

  ghost predicate Taken(was: Man, m: Man, n: nat, nNow: int, ids: seq<int>, vAddr: seq<Service>) {
    && Reordered(was, m) && n <= |m.random|
    && Drawn(was.info, nNow, ids, vAddr)
    && forall k | 0 <= k < |ids| :: ids[k] in m.random[..n]
  }

  lemma SampledNone(was: Man, nNow: int)
    ensures Sampled(was, was, 0, nNow, [], [])
  {
  }

  lemma ReorderedTrans(a: Man, b: Man, c: Man)
    requires Reordered(a, b) && Reordered(b, c)
    ensures Reordered(a, c)
  {
    forall id | id in a.info ensures c.info[id].(nRandomPos := 0) == a.info[id].(nRandomPos := 0) {
      assert b.info[id].(nRandomPos := 0) == a.info[id].(nRandomPos := 0);
    }
  }

  // Between the draw and the decision, place n is filled but not yet decided on.
  lemma SampledDraw(was: Man, m: Man, n: nat, nNow: int, ids: seq<int>, vAddr: seq<Service>, m': Man)
    requires Sampled(was, m, n, nNow, ids, vAddr) && DrawnAt(m, n, m')
    ensures Taken(was, m', n + 1, nNow, ids, vAddr) && Covered(was.info, nNow, ids, m'.random[..n])
    ensures m'.random[n] !in ids
  {
    assert m'.random[..n + 1] == m'.random[..n] + [m'.random[n]];
    ReorderedTrans(was, m, m');
  }

  lemma SampledSkip(was: Man, m: Man, n: nat, nNow: int, ids: seq<int>, vAddr: seq<Service>)
    requires Taken(was, m, n + 1, nNow, ids, vAddr) && Covered(was.info, nNow, ids, m.random[..n])
    requires m.random[n] in m.info && IsTerrible(m.info[m.random[n]], nNow)
    ensures Sampled(was, m, n + 1, nNow, ids, vAddr)
  {
    var id := m.random[n];
    assert id in was.info && m.info[id].(nRandomPos := 0) == was.info[id].(nRandomPos := 0);
    SameStats(m.info[id], was.info[id], nNow);
    assert m.random[..n + 1] == m.random[..n] + [id];
  }

  lemma SampledTake(was: Man, m: Man, n: nat, nNow: int, ids: seq<int>, vAddr: seq<Service>)
    requires Taken(was, m, n + 1, nNow, ids, vAddr) && Covered(was.info, nNow, ids, m.random[..n])
    requires m.random[n] !in ids && m.random[n] in m.info && !IsTerrible(m.info[m.random[n]], nNow)
    ensures Sampled(was, m, n + 1, nNow, ids + [m.random[n]], vAddr + [m.info[m.random[n]].service])
  {
    var id := m.random[n];
    assert id in was.info && m.info[id].(nRandomPos := 0) == was.info[id].(nRandomPos := 0);
    SameStats(m.info[id], was.info[id], nNow);
    assert m.random[..n + 1] == m.random[..n] + [id];
    assert m.random[..n + 1][n] == id;
  }

  lemma SameStats(i: Info, i': Info, nNow: int)
    requires i.(nRandomPos := 0) == i'.(nRandomPos := 0)
    ensures i.service == i'.service && (IsTerrible(i, nNow) <==> IsTerrible(i', nNow))
  {
    var z, z' := i.(nRandomPos := 0), i'.(nRandomPos := 0);
    assert IsTerrible(i, nNow) == IsTerrible(z, nNow) && i.service == z.service;
    assert IsTerrible(i', nNow) == IsTerrible(z', nNow) && i'.service == z'.service;
  }

  lemma SampleSound(h: Hashes, was: Man, m: Man, n: nat, nNow: int, ids: seq<int>, vAddr: seq<Service>)
    requires Linked(h, was) && Sampled(was, m, n, nNow, ids, vAddr)
    ensures Reordered(was, m) && n <= |m.random|
    ensures forall k | 0 <= k < |vAddr| :: Offered(was.info, nNow, vAddr[k])
    ensures forall j, k | 0 <= j < k < |vAddr| :: vAddr[j].ip != vAddr[k].ip
  {
    forall k | 0 <= k < |vAddr| ensures Offered(was.info, nNow, vAddr[k]) {
      var id := ids[k];
      assert id in was.info;
    }
    forall j, k | 0 <= j < k < |vAddr| ensures vAddr[j].ip != vAddr[k].ip {
      var a, b := ids[j], ids[k];
      assert a in was.info && b in was.info;
    }
  }

  lemma SampleComplete(h: Hashes, was: Man, m: Man, nNow: int, ids: seq<int>, vAddr: seq<Service>)
    requires Linked(h, m) && Sampled(was, m, |m.random|, nNow, ids, vAddr)
    ensures forall id | id in was.info :: was.info[id].service in vAddr || IsTerrible(was.info[id], nNow)
  {
    assert m.random[..|m.random|] == m.random;
    forall id | id in was.info ensures was.info[id].service in vAddr || IsTerrible(was.info[id], nNow) {
      assert id in m.info;
      var p := m.info[id].nRandomPos;
      assert m.random[p] == id;
      if id in ids {
        var k :| 0 <= k < |ids| && ids[k] == id;
        assert vAddr[k] == was.info[id].service;
      }
    }
  }

  lemma ReorderedTimes(info: map<int, Info>, info': map<int, Info>)
    requires SameButPlaces(info, info')
    ensures TimesOk(info) ==> TimesOk(info')
  {
    forall k | k in info' && TimesOk(info) ensures TimeOk(info'[k]) {
      assert TimeOk(info[k]) && info'[k].(nRandomPos := 0) == info[k].(nRandomPos := 0);
      assert TimeOk(info'[k]) == TimeOk(info'[k].(nRandomPos := 0)) && TimeOk(info[k]) == TimeOk(info[k].(nRandomPos := 0));
    }
  }

  // What Add_ leaves, as its contract has it.
  ghost predicate AddedTo(m: Man, addr: Address, source: NetAddr, nTimePenalty: int, nNow: int, info': map<int, Info>) {
    var penalty := if addr.service.ip == source then 0 else nTimePenalty;
    if addr.service.ip !in m.addr then StatsKept(m.info[m.nIdCount := NewInfo(Penalised(addr, penalty), source)], info')
    else
      var nId := m.addr[addr.service.ip];
      nId in m.info && StatsKept(m.info[nId := Refreshed(m.info[nId], addr, penalty, nNow)], info')
  }

  lemma AddTimes(h: Hashes, m: Man, addr: Address, source: NetAddr, nTimePenalty: int, nNow: int, m': Man, routable: NetAddr -> bool)
    requires Linked(h, m) && Tabled(h, m') && m'.triedT == m.triedT
    requires if routable(addr.service.ip) then AddedTo(m, addr, source, nTimePenalty, nNow, m'.info) else m' == m
    ensures TimesOk(m.info) ==> TimesOk(m'.info)
  {
    if TimesOk(m.info) && routable(addr.service.ip) {
      var penalty := if addr.service.ip == source then 0 else nTimePenalty;
      if addr.service.ip !in m.addr {
        NextIdFresh(h, m);
        TimesStay(h, m, m.info[m.nIdCount := NewInfo(Penalised(addr, penalty), source)], m');
      } else {
        var nId := m.addr[addr.service.ip];
        TimesStay(h, m, m.info[nId := Refreshed(m.info[nId], addr, penalty, nNow)], m');
      }
    }
  }

  /******* Runs *******/

  datatype Op =
    | DoAdd(address: Address, source: NetAddr, penalty: int, now: int)
    | DoGood(service: Service, time: int)
    | DoAttempt(service: Service, countFailure: bool, time: int)
    | DoConnected(service: Service, time: int)
    | DoSetServices(service: Service, services: bv64)
    | DoGetAddr(now: int)

  // A clock that has started: successes come at positive times, attempts not before 0.
  ghost predicate Timely(op: Op) {
    (op.DoGood? ==> op.time > 0) && (op.DoAttempt? ==> op.time >= 0)
  }

  // One operation.
  method Do(m: AddrManager, op: Op)
    requires m.Valid()
    modifies m, m.vvNew, m.vvTried
    ensures m.Valid()
    ensures !(old(TimesOk(m.mapInfo)) && Timely(op)) || TimesOk(m.mapInfo)
  {
    match op
    case DoAdd(address, source, penalty, now) =>
      ghost var was := m.Abs();
      var _ := m.Add(address, source, penalty, now);
      AddTimes(m.hashes, was, address, source, penalty, now, m.Abs(), m.routable);
    case DoGood(service, time) => m.Good(service, time);
    case DoGetAddr(now) =>
      ghost var was := m.mapInfo;
      var _ := m.GetAddr(now);
      ReorderedTimes(was, m.mapInfo);
    case DoAttempt(service, countFailure, time) => AttemptAt(m, service, countFailure, time);
    case DoConnected(service, time) => ConnectedAt(m, service, time);
    case DoSetServices(service, services) => SetServicesOf(m, service, services);
  }

  method AttemptAt(m: AddrManager, service: Service, countFailure: bool, time: int)
    requires m.Valid()
    modifies m`mapInfo
    ensures m.Valid() && (!(old(TimesOk(m.mapInfo)) && time >= 0) || TimesOk(m.mapInfo))
  {
    if m.Knows(service) { AttemptTimes(m.mapInfo, m.mapAddr[service.ip], countFailure, time, m.nLastGood); }
    m.Attempt(service, countFailure, time);
  }

  method ConnectedAt(m: AddrManager, service: Service, time: int)
    requires m.Valid()
    modifies m`mapInfo
    ensures m.Valid() && (!old(TimesOk(m.mapInfo)) || TimesOk(m.mapInfo))
  {
    ghost var was := m.mapInfo;
    m.Connected(service, time);
    SameTimes(was, m.mapInfo);
  }

  method SetServicesOf(m: AddrManager, service: Service, services: bv64)
    requires m.Valid()
    modifies m`mapInfo
    ensures m.Valid() && (!old(TimesOk(m.mapInfo)) || TimesOk(m.mapInfo))
  {
    ghost var was := m.mapInfo;
    m.SetServices(service, services);
    SameTimes(was, m.mapInfo);
  }

  lemma SameTimes(info: map<int, Info>, info': map<int, Info>)
    requires forall k | k in info' ::
               k in info && info'[k].nLastTry == info[k].nLastTry && info'[k].nLastSuccess == info[k].nLastSuccess
               && info'[k].fInTried == info[k].fInTried
    ensures !TimesOk(info) || TimesOk(info')
  {
    if TimesOk(info) {
      forall k | k in info' ensures TimeOk(info'[k]) { assert TimeOk(info[k]); }
    }
  }

  // Whatever is done to a new manager, in whatever order and with whatever
  // clock and random numbers, it is consistent in the end; and with a clock that has
  // started its times are as they have to be.
  method Run(hashes: Hashes, routable: NetAddr -> bool, ops: seq<Op>) returns (m: AddrManager)
    ensures m.Valid() && m.hashes == hashes && fresh(m) && fresh(m.vvNew) && fresh(m.vvTried)
    ensures (forall i | 0 <= i < |ops| :: Timely(ops[i])) ==> TimesOk(m.mapInfo)
  {
    m := new AddrManager(hashes, routable);
    for i := 0 to |ops|
      invariant m.Valid() && m.hashes == hashes && fresh(m) && fresh(m.vvNew) && fresh(m.vvTried)
      invariant (forall k | 0 <= k < i :: Timely(ops[k])) ==> TimesOk(m.mapInfo)
    {
      Do(m, ops[i]);
    }
  }
}
