// Compact block reconstruction of src/blockencodings.cpp (BIP 152): a block is sent as
// a list of short transaction ids and a few whole transactions, and is put together
// again from the receiver's mempool, its extra transactions and those it asks for.

module CompactBlocks {
  import opened Options

  datatype Tx = Tx(hash: nat, isNull: bool, content: nat)

  type uint32 = x: int | 0 <= x < 0x1_0000_0000

  // A prefilled transaction, with the distance from the one before.
  datatype Prefilled = Prefilled(index: uint32, tx: Tx)

  // A CBlockHeaderAndShortTxIDs message.
  datatype Compact = Compact(headerIsNull: bool, shorttxids: seq<nat>, prefilledtxn: seq<Prefilled>)

  datatype ReadStatus =
    | OK
    | INVALID
    | FAILED
    | CHECKBLOCK_FAILED
    | UNDEFINED              // no value of the source: a slot outside of the vector is written

  const MAX_UINT32: nat := 0xffff_ffff

  // The conversion to uint32_t.
  function Low32(x: int): uint32 {
    if 0 <= x <= MAX_UINT32 then x else x % 0x1_0000_0000
  }

  type Slots = seq<Option<Tx>>

  /******* The message of a block *******/

  // GetShortID under the message's key, as a function of the transaction hash.
  type ShortId = nat -> nat

  method CompactOf(vtx: seq<Tx>, short: ShortId) returns (m: Compact)
    requires |vtx| > 0
    ensures Describes(m, vtx, short) && m.prefilledtxn == [Prefilled(0, vtx[0])]
    ensures |m.shorttxids| == |vtx| - 1 && forall k | 0 <= k < |vtx| - 1 :: m.shorttxids[k] == short(vtx[k + 1].hash)
  {
    var shorttxids := [];
    for i := 1 to |vtx|
      invariant |shorttxids| == i - 1 && forall k | 0 <= k < i - 1 :: shorttxids[k] == short(vtx[k + 1].hash)
    {
      shorttxids := shorttxids + [short(vtx[i].hash)];
    }
    m := Compact(false, shorttxids, [Prefilled(0, vtx[0])]);
    CoinbaseFirst(m, vtx, short);
  }

  // lastprefilledindex at prefilled transaction i, -1 before the first: the index and one
  // are added up in 32 bits.
  function IndexOf(p: seq<Prefilled>, i: int): int
    requires -1 <= i < |p|
    decreases i
  {
    if i < 0 then -1 else IndexOf(p, i - 1) + Low32(p[i].index + 1)
  }

  // Those that do not move on, because one more than their index is zero.
  predicate Wraps(x: Prefilled) { x.index == MAX_UINT32 }

  function WrapCount(p: seq<Prefilled>, n: nat): nat
    requires n <= |p|
  {
    if n == 0 then 0 else WrapCount(p, n - 1) + (if Wraps(p[n - 1]) then 1 else 0)
  }

  lemma {:induction false} IndexGrows(p: seq<Prefilled>, i: int, j: int)
    requires -1 <= i <= j < |p|
    ensures IndexOf(p, i) <= IndexOf(p, j)
    ensures i < j && !Wraps(p[j]) ==> IndexOf(p, i) < IndexOf(p, j)
    decreases j
  {
    if i < j { IndexGrows(p, i, j - 1); }
  }

  // Prefilled transaction i passes the tests on it.
  ghost predicate PrefilledOk(m: Compact, i: int)
    requires 0 <= i < |m.prefilledtxn|
  {
    && !m.prefilledtxn[i].tx.isNull && IndexOf(m.prefilledtxn, i) <= MAX_UINT32
    && Low32(IndexOf(m.prefilledtxn, i)) <= |m.shorttxids| + i
  }

  ghost predicate AllPrefilledOk(m: Compact) {
    forall i | 0 <= i < |m.prefilledtxn| :: PrefilledOk(m, i)
  }

  // The first index is the largest and the short ids are so many that it passes: then the
  // slot that is written is -1.
  ghost predicate WritesOutside(m: Compact) {
    && |m.prefilledtxn| > 0 && !m.prefilledtxn[0].tx.isNull && Wraps(m.prefilledtxn[0])
    && |m.shorttxids| >= MAX_UINT32
  }

  function TxCount(m: Compact): nat { |m.shorttxids| + |m.prefilledtxn| }

  /******* Which messages are meant to pass *******/

  // The place of prefilled transaction i in the block, as BIP 152 has it: the distances
  // and one for each are added up.
  function PlaceOf(p: seq<Prefilled>, i: int): int
    requires -1 <= i < |p|
    decreases i
  {
    if i < 0 then -1 else PlaceOf(p, i - 1) + p[i].index + 1
  }

  // Prefilled transactions are there, and none is beyond all that could come before it.
  ghost predicate WellFormed(m: Compact) {
    forall i | 0 <= i < |m.prefilledtxn| ::
      && !m.prefilledtxn[i].tx.isNull && PlaceOf(m.prefilledtxn, i) <= MAX_UINT32
      && PlaceOf(m.prefilledtxn, i) <= |m.shorttxids| + i
  }

  ghost predicate NoneWraps(m: Compact) {
    forall i | 0 <= i < |m.prefilledtxn| :: !Wraps(m.prefilledtxn[i])
  }

  lemma {:induction false} PlaceAtLeast(p: seq<Prefilled>, i: int)
    requires -1 <= i < |p|
    ensures PlaceOf(p, i) >= i
    decreases i
  {
    if i >= 0 { PlaceAtLeast(p, i - 1); }
  }

  lemma {:induction false} IndexIsPlace(m: Compact, i: int)
    requires NoneWraps(m) && -1 <= i < |m.prefilledtxn|
    ensures IndexOf(m.prefilledtxn, i) == PlaceOf(m.prefilledtxn, i)
    decreases i
  {
    if i >= 0 {
      IndexIsPlace(m, i - 1);
      assert !Wraps(m.prefilledtxn[i]);
    }
  }

  // A message passes the tests without an index that wraps if and only if it is
  // well-formed, but for the one that writes outside.
  lemma AcceptedIff(m: Compact)
    ensures AllPrefilledOk(m) && NoneWraps(m) <==> WellFormed(m) && !WritesOutside(m)
  {
    var p := m.prefilledtxn;
    if WellFormed(m) && !WritesOutside(m) {
      forall i | 0 <= i < |p| ensures !Wraps(p[i]) {
        PlaceAtLeast(p, i - 1);
        assert PlaceOf(p, i) == PlaceOf(p, i - 1) + p[i].index + 1 && PlaceOf(p, -1) == -1;
      }
    }
    if NoneWraps(m) {
      forall i | 0 <= i < |p| ensures 0 <= IndexOf(p, i) == PlaceOf(p, i) {
        IndexIsPlace(m, i);
        PlaceAtLeast(p, i);
      }
      if AllPrefilledOk(m) {
        forall i | 0 <= i < |p|
          ensures !p[i].tx.isNull && PlaceOf(p, i) <= MAX_UINT32 && PlaceOf(p, i) <= |m.shorttxids| + i
        {
          assert PrefilledOk(m, i);
        }
      }
    }
  }

  // Some prefilled transaction before the n-th goes to position q.
  ghost predicate IsPrefilled(m: Compact, n: nat, q: int)
    requires n <= |m.prefilledtxn|
  {
    exists i :: 0 <= i < n && IndexOf(m.prefilledtxn, i) == q
  }

  // Of the first n, none after i goes to the same position.
  predicate LastThere(p: seq<Prefilled>, n: nat, i: nat)
    requires i < n <= |p|
  {
    i + 1 == n || !Wraps(p[i + 1])
  }

  // The slot of prefilled transaction i is filled, and with it if it is the last there.
  ghost predicate InPlace(p: seq<Prefilled>, n: nat, s: Slots, i: nat)
    requires i < n <= |p|
  {
    var q := IndexOf(p, i);
    0 <= q < |s| && s[q].Some? && (LastThere(p, n, i) ==> s[q] == Some(p[i].tx))
  }

  // The first n prefilled transactions are in place, later ones over earlier ones, and
  // nothing else is.
  ghost predicate PlacedTo(m: Compact, n: nat, s: Slots)
    requires n <= |m.prefilledtxn|
  {
    |s| == TxCount(m) && AllInPlace(m.prefilledtxn, n, s) && NothingElse(m, n, s)
  }

  ghost predicate AllInPlace(p: seq<Prefilled>, n: nat, s: Slots)
    requires n <= |p|
  {
    forall i: nat | i < n :: InPlace(p, n, s, i)
  }

  ghost predicate NothingElse(m: Compact, n: nat, s: Slots)
    requires n <= |m.prefilledtxn|
  {
    forall q | 0 <= q < |s| :: s[q].Some? ==> IsPrefilled(m, n, q)
  }

  // The last one that goes where i does.
  lemma {:induction false} LastOf(p: seq<Prefilled>, n: nat, i: nat) returns (j: nat)
    requires i < n <= |p|
    ensures i <= j < n && LastThere(p, n, j) && IndexOf(p, j) == IndexOf(p, i)
    decreases n - i
  {
    if LastThere(p, n, i) {
      j := i;
    } else {
      j := LastOf(p, n, i + 1);
    }
  }

  // A message that passes and is not well-formed: the second transaction is put over the
  // first, and there is one position more than short ids are left for.
  lemma WrappedAccepted(x: nat, a: Tx, b: Tx, s: Slots)
    requires !a.isNull && !b.isNull
    ensures var m := Compact(false, [x], [Prefilled(0, a), Prefilled(MAX_UINT32, b)]);
            && AllPrefilledOk(m) && !WritesOutside(m) && !WellFormed(m)
            && (PlacedTo(m, 2, s) ==> s == [Some(b), None, None])
  {
    var p := [Prefilled(0, a), Prefilled(MAX_UINT32, b)];
    var m := Compact(false, [x], p);
    assert IndexOf(p, 0) == IndexOf(p, -1) + 1 == 0 && IndexOf(p, 1) == IndexOf(p, 0) + 0 == 0;
    assert PlaceOf(p, 1) == PlaceOf(p, 0) + MAX_UINT32 + 1 && PlaceOf(p, 0) == PlaceOf(p, -1) + 1;
    if PlacedTo(m, 2, s) {
      assert InPlace(p, 2, s, 1);
      assert !IsPrefilled(m, 2, 1) && !IsPrefilled(m, 2, 2);
    }
  }

  /******* Positions of the short ids *******/

  // How many of the first n slots are filled.
  function Filled(s: Slots, n: nat): nat
    requires n <= |s|
  {
    if n == 0 then 0 else Filled(s, n - 1) + (if s[n - 1].Some? then 1 else 0)
  }

  // The empty slots among the first n, in order.
  function Gaps(s: Slots, n: nat): seq<nat>
    requires n <= |s|
  {
    if n == 0 then [] else Gaps(s, n - 1) + (if s[n - 1].None? then [n - 1] else [])
  }

  // Gaps are strictly increasing, and they are all the empty slots.
  lemma {:induction false} GapsAre(s: Slots, n: nat)
    requires n <= |s|
    ensures var g := Gaps(s, n);
            && |g| + Filled(s, n) == n
            && (forall j, k | 0 <= j < k < |g| :: g[j] < g[k])
            && (forall q: nat :: q in g <==> q < n && s[q].None?)
  {
    GapsCount(s, n);
    if n > 0 {
      GapsAre(s, n - 1);
      var g := Gaps(s, n - 1);
      assert forall j | 0 <= j < |g| :: g[j] in g;
    }
  }

  lemma {:induction false} GapsCount(s: Slots, n: nat)
    requires n <= |s|
    ensures |Gaps(s, n)| + Filled(s, n) == n
  {
    if n > 0 { GapsCount(s, n - 1); }
  }

  lemma {:induction false} GapsPrefix(s: Slots, n: nat, m: nat)
    requires n <= m <= |s|
    ensures Gaps(s, n) <= Gaps(s, m)
    decreases m
  {
    if n < m { GapsPrefix(s, n, m - 1); }
  }

  lemma GapAt(s: Slots, i: nat, q: nat)
    requires q < |s| && s[q].None? && |Gaps(s, q)| == i
    ensures i < |Gaps(s, |s|)| && Gaps(s, |s|)[i] == q && |Gaps(s, q + 1)| == i + 1
  {
    GapsPrefix(s, q + 1, |s|);
    assert Gaps(s, q + 1) == Gaps(s, q) + [q];
  }

  // The message stands for the block: what is prefilled is the block's, and the short
  // ids in order are those of the other positions in order.
  ghost predicate Describes(m: Compact, vtx: seq<Tx>, short: ShortId) {
    && !m.headerIsNull && |vtx| == TxCount(m)
    && (forall i | 0 <= i < |m.prefilledtxn| ::
          0 <= IndexOf(m.prefilledtxn, i) < |vtx| && vtx[IndexOf(m.prefilledtxn, i)] == m.prefilledtxn[i].tx)
    && (forall s: Slots | PlacedTo(m, |m.prefilledtxn|, s) :: ShortIdsAt(m, vtx, short, Gaps(s, |s|)))
  }

  ghost predicate ShortIdsAt(m: Compact, vtx: seq<Tx>, short: ShortId, g: seq<nat>) {
    |g| == |m.shorttxids| && forall k | 0 <= k < |g| :: g[k] < |vtx| && m.shorttxids[k] == short(vtx[g[k]].hash)
  }

  // The message with the first transaction prefilled describes the block.
  lemma CoinbaseFirst(m: Compact, vtx: seq<Tx>, short: ShortId)
    requires |vtx| > 0 && !m.headerIsNull && m.prefilledtxn == [Prefilled(0, vtx[0])]
    requires |m.shorttxids| == |vtx| - 1 && forall k | 0 <= k < |vtx| - 1 :: m.shorttxids[k] == short(vtx[k + 1].hash)
    ensures Describes(m, vtx, short)
  {
    assert IndexOf(m.prefilledtxn, 0) == IndexOf(m.prefilledtxn, -1) + 1 == 0;
    forall s: Slots | PlacedTo(m, 1, s) ensures ShortIdsAt(m, vtx, short, Gaps(s, |s|)) {
      forall q | 0 < q < |s| ensures s[q].None? {
        assert IsPrefilled(m, 1, q) ==> q == 0;
      }
      assert InPlace(m.prefilledtxn, 1, s, 0);
      TailGaps(s, |s|);
    }
  }

  lemma {:induction false} TailGaps(s: Slots, n: nat)
    requires 1 <= n <= |s| && s[0].Some? && forall q | 0 < q < |s| :: s[q].None?
    ensures |Gaps(s, n)| == n - 1 && forall k | 0 <= k < n - 1 :: Gaps(s, n)[k] == k + 1
  {
    if n == 1 {
      assert Gaps(s, 1) == Gaps(s, 0) == [];
    } else {
      TailGaps(s, n - 1);
    }
  }

  /******* Filling slots *******/

  lemma {:induction false} FilledSame(s: Slots, t: Slots, n: nat)
    requires n <= |s| && n <= |t| && forall k | 0 <= k < n :: s[k].Some? == t[k].Some?
    ensures Filled(t, n) == Filled(s, n)
  {
    if n > 0 { FilledSame(s, t, n - 1); }
  }

  lemma {:induction false} FilledPut(s: Slots, q: nat, x: Option<Tx>, n: nat)
    requires q < n <= |s|
    ensures Filled(s[q := x], n) + (if s[q].Some? then 1 else 0) == Filled(s, n) + (if x.Some? then 1 else 0)
  {
    if q < n - 1 {
      FilledPut(s, q, x, n - 1);
    } else {
      FilledSame(s, s[q := x], n - 1);
    }
  }

  lemma {:induction false} FilledBound(s: Slots, n: nat)
    requires n <= |s|
    ensures Filled(s, n) <= n && (Filled(s, n) == n ==> forall q | 0 <= q < n :: s[q].Some?)
  {
    if n > 0 { FilledBound(s, n - 1); }
  }

  lemma {:induction false} FilledMore(s: Slots, n: nat, m: nat)
    requires n <= m <= |s|
    ensures Filled(s, n) <= Filled(s, m)
    decreases m
  {
    if n < m { FilledMore(s, n, m - 1); }
  }

  lemma {:induction false} FilledNone(s: Slots, n: nat)
    requires n <= |s| && forall q | 0 <= q < n :: s[q].None?
    ensures Filled(s, n) == 0
  {
    if n > 0 { FilledNone(s, n - 1); }
  }

  // One more prefilled transaction is put into its slot, which is empty unless its index
  // wraps.
  lemma PlacedNext(m: Compact, n: nat, s: Slots)
    requires n < |m.prefilledtxn| && PlacedTo(m, n, s) && 0 <= IndexOf(m.prefilledtxn, n) < |s|
    ensures var q := IndexOf(m.prefilledtxn, n);
            (s[q].Some? <==> Wraps(m.prefilledtxn[n])) && PlacedTo(m, n + 1, s[q := Some(m.prefilledtxn[n].tx)])
  {
    SlotTaken(m, n, s);
    PlacedPut(m, n, s, IndexOf(m.prefilledtxn, n));
  }

  lemma SlotTaken(m: Compact, n: nat, s: Slots)
    requires n < |m.prefilledtxn| && PlacedTo(m, n, s) && 0 <= IndexOf(m.prefilledtxn, n) < |s|
    ensures s[IndexOf(m.prefilledtxn, n)].Some? <==> Wraps(m.prefilledtxn[n])
  {
    var p, q := m.prefilledtxn, IndexOf(m.prefilledtxn, n);
    if Wraps(p[n]) {
      assert n > 0 && IndexOf(p, n - 1) == q;
      assert InPlace(p, n, s, n - 1);
    } else {
      forall i | 0 <= i < n ensures IndexOf(p, i) != q { IndexGrows(p, i, n); }
      assert !IsPrefilled(m, n, q);
    }
  }

  lemma PlacedPut(m: Compact, n: nat, s: Slots, q: nat)
    requires n < |m.prefilledtxn| && PlacedTo(m, n, s) && q < |s| && IndexOf(m.prefilledtxn, n) == q
    ensures PlacedTo(m, n + 1, s[q := Some(m.prefilledtxn[n].tx)])
  {
    AllStay(m.prefilledtxn, n, s, q, n + 1);
    NothingElsePut(m, n, s, q, m.prefilledtxn[n].tx);
  }

  lemma AllStay(p: seq<Prefilled>, n: nat, s: Slots, q: nat, k: nat)
    requires k == n + 1 <= |p| && AllInPlace(p, n, s) && q < |s| && IndexOf(p, n) == q
    ensures AllInPlace(p, k, s[q := Some(p[n].tx)])
  {
    var s' := s[q := Some(p[n].tx)];
    forall i: nat | i < k ensures InPlace(p, k, s', i) {
      if i < n { StaysInPlace(p, n, s, q, i); }
    }
  }

  lemma NothingElsePut(m: Compact, n: nat, s: Slots, q: nat, x: Tx)
    requires n < |m.prefilledtxn| && NothingElse(m, n, s) && q < |s| && IndexOf(m.prefilledtxn, n) == q
    ensures NothingElse(m, n + 1, s[q := Some(x)])
  {
    var k := n + 1;
    forall r | 0 <= r < |s| && (r == q || s[r].Some?) ensures IsPrefilled(m, k, r) {
      if r != q { PrefilledMore(m, n, r); }
    }
  }

  lemma PrefilledMore(m: Compact, n: nat, r: int)
    requires n < |m.prefilledtxn| && IsPrefilled(m, n, r)
    ensures IsPrefilled(m, n + 1, r)
  {
    var i :| 0 <= i < n && IndexOf(m.prefilledtxn, i) == r;
    assert IndexOf(m.prefilledtxn, i) == r;
  }

  lemma StaysInPlace(p: seq<Prefilled>, n: nat, s: Slots, q: nat, i: nat)
    requires i < n < |p| && InPlace(p, n, s, i) && q < |s| && IndexOf(p, n) == q
    ensures InPlace(p, n + 1, s[q := Some(p[n].tx)], i)
  {
    if !Wraps(p[i + 1]) {
      IndexGrows(p, i, i + 1);
      IndexGrows(p, i + 1, n);
    }
  }

  /******* Short ids *******/

  // The gaps as they are kept in the map, in 32 bits.
  ghost function Lowered(g: seq<nat>): (r: seq<nat>)
    ensures |r| == |g| && (forall k | 0 <= k < |g| :: r[k] == Low32(g[k]) && r[k] <= g[k])
    ensures (forall k | 0 <= k < |g| :: g[k] <= MAX_UINT32) ==> r == g
  {
    seq(|g|, k requires 0 <= k < |g| => Low32(g[k]))
  }

  // The map of the first n short ids to positions: every entry is one of them at its
  // gap, and without a collision all of them are there.
  ghost predicate Mapped(m: Compact, ids: map<nat, nat>, g: seq<nat>, n: nat)
    requires n <= |m.shorttxids| && n <= |g|
  {
    && (forall id | id in ids :: AtGap(m, g, n, id, ids[id]))
    && (forall j | 0 <= j < n :: m.shorttxids[j] in ids)
    && |ids| <= n && (|ids| == n ==> AllAtGaps(m, ids, g, n) && Apart(m, n))
  }

  ghost predicate AtGap(m: Compact, g: seq<nat>, n: nat, id: nat, pos: nat)
    requires n <= |m.shorttxids| && n <= |g|
  {
    exists j :: 0 <= j < n && m.shorttxids[j] == id && g[j] == pos
  }

  ghost predicate AllAtGaps(m: Compact, ids: map<nat, nat>, g: seq<nat>, n: nat)
    requires n <= |m.shorttxids| && n <= |g|
  {
    forall j | 0 <= j < n :: m.shorttxids[j] in ids && ids[m.shorttxids[j]] == g[j]
  }

  ghost predicate Apart(m: Compact, n: nat)
    requires n <= |m.shorttxids|
  {
    forall j, k | 0 <= j < k < n :: m.shorttxids[j] != m.shorttxids[k]
  }

  lemma AtGapNext(m: Compact, g: seq<nat>, n: nat, id: nat, pos: nat)
    requires n < |m.shorttxids| && n < |g| && AtGap(m, g, n, id, pos)
    ensures AtGap(m, g, n + 1, id, pos)
  {
    var j :| 0 <= j < n && m.shorttxids[j] == id && g[j] == pos;
    assert m.shorttxids[j] == id && g[j] == pos;
  }

  lemma MappedNext(m: Compact, ids: map<nat, nat>, g: seq<nat>, n: nat)
    requires n < |m.shorttxids| && n < |g|
    ensures !Mapped(m, ids, g, n) || Mapped(m, ids[m.shorttxids[n] := g[n]], g, n + 1)
  {
    if Mapped(m, ids, g, n) {
      var id := m.shorttxids[n];
      var ids' := ids[id := g[n]];
      forall x | x in ids' ensures AtGap(m, g, n + 1, x, ids'[x]) {
        if x == id {
          assert m.shorttxids[n] == x && g[n] == ids'[x];
        } else {
          AtGapNext(m, g, n, x, ids[x]);
        }
      }
      MapSize(ids, id, g[n]);
      if |ids'| == n + 1 { ApartNext(m, ids, g, n); }
    }
  }

  lemma ApartNext(m: Compact, ids: map<nat, nat>, g: seq<nat>, n: nat)
    requires n < |m.shorttxids| && n < |g| && m.shorttxids[n] !in ids && AllAtGaps(m, ids, g, n) && Apart(m, n)
    ensures AllAtGaps(m, ids[m.shorttxids[n] := g[n]], g, n + 1) && Apart(m, n + 1)
  {
    assert forall j | 0 <= j < n :: m.shorttxids[j] != m.shorttxids[n];
  }

  lemma MapSize(ids: map<nat, nat>, id: nat, pos: nat)
    ensures |ids[id := pos]| == |ids| + (if id in ids then 0 else 1)
  {
    var ids' := ids[id := pos];
    assert ids'.Keys == ids.Keys + {id};
  }

  // The map of the first n short ids, a later one over an earlier.
  ghost function IdsTo(m: Compact, g: seq<nat>, n: nat): map<nat, nat>
    requires n <= |m.shorttxids| && n <= |g|
  {
    if n == 0 then map[] else IdsTo(m, g, n - 1)[m.shorttxids[n - 1] := g[n - 1]]
  }

  lemma {:induction false} IdsMapped(m: Compact, g: seq<nat>, n: nat)
    requires n <= |m.shorttxids| && n <= |g|
    ensures Mapped(m, IdsTo(m, g, n), g, n)
  {
    if n == 0 {
      assert IdsTo(m, g, 0) == map[];
    } else {
      IdsMapped(m, g, n - 1);
      MappedNext(m, IdsTo(m, g, n - 1), g, n - 1);
      assert IdsTo(m, g, n) == IdsTo(m, g, n - 1)[m.shorttxids[n - 1] := g[n - 1]];
    }
  }

  /******* Searching the pools *******/

  // What is sought: the block, its prefilled slots and the gaps of its short ids.
  datatype Target = Target(vtx: seq<Tx>, s0: Slots, ids: map<nat, nat>)

  ghost predicate TargetOk(t: Target, short: ShortId) {
    && |t.s0| == |t.vtx| && (forall q | 0 <= q < |t.s0| && t.s0[q].Some? :: t.s0[q].value == t.vtx[q])
    && (forall id | id in t.ids :: t.ids[id] < |t.s0| && t.s0[t.ids[id]].None? && short(t.vtx[t.ids[id]].hash) == id)
    && (forall q | 0 <= q < |t.s0| && t.s0[q].None? :: var id := short(t.vtx[q].hash); id in t.ids && t.ids[id] == q)
  }

  // The short id tells x from every transaction of the block.
  ghost predicate Tells(vtx: seq<Tx>, short: ShortId, x: Tx) {
    forall q | 0 <= q < |vtx| && short(vtx[q].hash) == short(x.hash) :: vtx[q] == x
  }

  // How many of the first n slots are filled and taken from a pool.
  function Taken(s: Slots, have: seq<bool>, n: nat): nat
    requires n <= |s| == |have|
  {
    if n == 0 then 0 else Taken(s, have, n - 1) + (if have[n - 1] && s[n - 1].Some? then 1 else 0)
  }

  lemma {:induction false} TakenSame(s: Slots, have: seq<bool>, s': Slots, have': seq<bool>, n: nat)
    requires n <= |s| == |have| && |s'| == |have'| == |s|
    requires forall k | 0 <= k < n :: s'[k] == s[k] && have'[k] == have[k]
    ensures Taken(s', have', n) == Taken(s, have, n)
  {
    if n > 0 { TakenSame(s, have, s', have', n - 1); }
  }

  lemma {:induction false} TakenPut(s: Slots, have: seq<bool>, q: nat, x: Option<Tx>, n: nat)
    requires q < n <= |s| == |have|
    ensures Taken(s[q := x], have[q := true], n) + (if have[q] && s[q].Some? then 1 else 0) ==
            Taken(s, have, n) + (if x.Some? then 1 else 0)
  {
    if q < n - 1 {
      TakenPut(s, have, q, x, n - 1);
    } else {
      TakenSame(s, have, s[q := x], have[q := true], n - 1);
    }
  }

  // The slots while pools are searched: have_txn notes positions of short ids, any other
  // slot is as it was, and mempool_count counts the noted ones that are filled.
  ghost predicate Searching(s0: Slots, s: Slots, have: seq<bool>, count: int, ids: map<nat, nat>) {
    && |s| == |s0| == |have| && count == Taken(s, have, |s|)
    && (forall q | 0 <= q < |s| && !have[q] :: s[q] == s0[q])
    && (forall q | 0 <= q < |s| && have[q] :: q in ids.Values)
  }

  ghost predicate InRange(ids: map<nat, nat>, s0: Slots) {
    forall id | id in ids :: ids[id] < |s0|
  }

  // The positions of short ids are not prefilled.
  ghost predicate Vacant(ids: map<nat, nat>, s0: Slots) {
    forall id | id in ids :: ids[id] < |s0| && s0[ids[id]].None?
  }

  ghost predicate Sound(s: Slots, vtx: seq<Tx>) {
    |s| == |vtx| && forall q | 0 <= q < |s| && s[q].Some? :: s[q].value == vtx[q]
  }

  lemma SearchingPut(s0: Slots, s: Slots, have: seq<bool>, count: int, ids: map<nat, nat>, id: nat, x: Option<Tx>)
    requires Searching(s0, s, have, count, ids) && InRange(ids, s0) && id in ids
    ensures var q := ids[id];
            Searching(s0, s[q := x], have[q := true],
                      count + (if x.Some? then 1 else 0) - (if have[q] && s[q].Some? then 1 else 0), ids)
  {
    TakenPut(s, have, ids[id], x, |s|);
    assert ids[id] in ids.Values;
  }

  // With positions that are not prefilled, what is prefilled stays and the count is that
  // of the slots filled.
  lemma SearchedKeeps(s0: Slots, s: Slots, have: seq<bool>, count: int, ids: map<nat, nat>)
    requires Searching(s0, s, have, count, ids) && Vacant(ids, s0)
    ensures Filled(s, |s|) == Filled(s0, |s0|) + count
    ensures forall q | 0 <= q < |s| && s0[q].Some? :: s[q] == s0[q]
  {
    forall q | 0 <= q < |s| && have[q] ensures s0[q].None? {
      var id :| id in ids && ids[id] == q;
    }
    FilledTaken(s0, s, have, |s|);
  }

  lemma {:induction false} FilledTaken(s0: Slots, s: Slots, have: seq<bool>, n: nat)
    requires n <= |s| == |s0| == |have|
    requires forall q | 0 <= q < |s| :: if have[q] then s0[q].None? else s[q] == s0[q]
    ensures Filled(s, n) == Filled(s0, n) + Taken(s, have, n)
  {
    if n > 0 { FilledTaken(s0, s, have, n - 1); }
  }

  // The slot that x's short id leads to, if any, is its own.
  ghost predicate Found(t: Target, s: Slots, x: Tx)
    requires |s| == |t.vtx|
  {
    forall q | 0 <= q < |s| && t.vtx[q] == x :: s[q].Some?
  }

  // An extra transaction and the hash it is listed under.
  datatype Extra = Extra(hash: nat, tx: Tx)

  ghost predicate Distinct(pool: seq<Tx>) {
    forall j, k | 0 <= j < k < |pool| :: pool[j] != pool[k]
  }

  // With a distinct pool: a slot that was taken stays so, and whatever was offered and
  // belongs to the block is in its slot.
  ghost predicate Keeping(t: Target, s: Slots, have: seq<bool>, seen: seq<Tx>) {
    && Sound(s, t.vtx) && |have| == |s| == |t.s0|
    && (forall q | 0 <= q < |s| && t.s0[q].None? && have[q] :: s[q].Some?)
    && (forall j | 0 <= j < |seen| :: Found(t, s, seen[j]))
  }

  // A slot is taken only for what was seen.
  ghost predicate Noted(t: Target, have: seq<bool>, seen: seq<Tx>) {
    |have| == |t.vtx| == |t.s0| && forall q | 0 <= q < |have| && t.s0[q].None? && have[q] :: t.vtx[q] in seen
  }

  lemma Leads(t: Target, short: ShortId, x: Tx)
    requires TargetOk(t, short) && Tells(t.vtx, short, x)
    ensures short(x.hash) in t.ids ==> t.vtx[t.ids[short(x.hash)]] == x
    ensures forall q | 0 <= q < |t.vtx| && t.vtx[q] == x && t.s0[q].None? :: short(x.hash) in t.ids && t.ids[short(x.hash)] == q
  {
  }

  lemma SoundPut(t: Target, short: ShortId, s: Slots, x: Tx, y: Option<Tx>)
    requires TargetOk(t, short) && Tells(t.vtx, short, x) && Sound(s, t.vtx) && short(x.hash) in t.ids && (y == None || y == Some(x))
    ensures Sound(s[t.ids[short(x.hash)] := y], t.vtx)
  {
    Leads(t, short, x);
  }

  lemma SeenMore(t: Target, s: Slots, have: seq<bool>, seen: seq<Tx>, x: Tx)
    requires Keeping(t, s, have, seen) && Found(t, s, x)
    ensures Keeping(t, s, have, seen + [x])
  {
  }

  // A transaction that no slot was taken for is kept in its own.
  lemma KeepNew(t: Target, short: ShortId, s: Slots, have: seq<bool>, seen: seq<Tx>, x: Tx)
    requires TargetOk(t, short) && Tells(t.vtx, short, x) && Keeping(t, s, have, seen) && short(x.hash) in t.ids
    ensures var q := t.ids[short(x.hash)]; Keeping(t, s[q := Some(x)], have[q := true], seen + [x])
    requires forall q | 0 <= q < |t.s0| && t.s0[q].Some? :: s[q].Some?
  {
    Leads(t, short, x);
    var q := t.ids[short(x.hash)];
    var s' := s[q := Some(x)];
    forall j | 0 <= j < |seen| ensures Found(t, s', seen[j]) {
      assert Found(t, s, seen[j]);
    }
    assert Found(t, s', x);
  }

  // One whose short id leads nowhere is not of the block, or is prefilled.
  lemma KeepOther(t: Target, short: ShortId, s: Slots, have: seq<bool>, seen: seq<Tx>, x: Tx)
    requires TargetOk(t, short) && Tells(t.vtx, short, x) && Keeping(t, s, have, seen) && short(x.hash) !in t.ids
    requires forall q | 0 <= q < |t.s0| && t.s0[q].Some? :: s[q].Some?
    ensures Keeping(t, s, have, seen + [x])
  {
    Leads(t, short, x);
    SeenMore(t, s, have, seen, x);
  }

  // Once every slot is filled, everything is found.
  lemma KeepAll(t: Target, s: Slots, have: seq<bool>, seen: seq<Tx>, all: seq<Tx>)
    requires Keeping(t, s, have, seen) && seen <= all && forall q | 0 <= q < |s| :: s[q].Some?
    ensures Keeping(t, s, have, all)
  {
    assert forall x | x in seen :: x in all;
  }

  lemma AllFilled(s0: Slots, s: Slots, have: seq<bool>, count: int, ids: map<nat, nat>)
    requires Searching(s0, s, have, count, ids) && Vacant(ids, s0) && count == |ids| && Filled(s0, |s0|) + |ids| == |s0|
    ensures forall q | 0 <= q < |s| :: s[q].Some?
  {
    SearchedKeeps(s0, s, have, count, ids);
    FilledBound(s, |s|);
  }

  // A slot after the extra transaction tx was offered for it.
  function AfterExtra(have: bool, slot: Option<Tx>, tx: Tx): Option<Tx> {
    if !have then Some(tx) else if slot.Some? && slot.value.hash != tx.hash then None else slot
  }

  /******* PartiallyDownloadedBlock *******/

  class PartiallyDownloadedBlock {
    var headerIsNull: bool
    var txnsAvailable: Slots
    var prefilledCount: nat
    var mempoolCount: int

    constructor ()
      ensures headerIsNull && txnsAvailable == [] && mempoolCount == 0
    {
      headerIsNull, txnsAvailable, prefilledCount, mempoolCount := true, [], 0, 0;
    }

    // The loop over the prefilled transactions: which messages pass, that all others are
    // refused within range but for one kind, and what is filled then.
    method PlacePrefilled(m: Compact) returns (r: ReadStatus)
      requires |txnsAvailable| == TxCount(m) && forall q | 0 <= q < |txnsAvailable| :: txnsAvailable[q].None?
      modifies this`txnsAvailable
      ensures r == (if WritesOutside(m) then UNDEFINED else if AllPrefilledOk(m) then OK else INVALID)
      ensures r == OK ==> Placed(m, txnsAvailable)
    {
      var last: int := -1;
      FilledNone(txnsAvailable, |txnsAvailable|);
      for i := 0 to |m.prefilledtxn|
        invariant last == IndexOf(m.prefilledtxn, i - 1) && last >= (if i > 0 then 0 else -1)
        invariant (forall k | 0 <= k < i :: PrefilledOk(m, k)) && (i > 0 ==> !WritesOutside(m))
        invariant PlacedTo(m, i, txnsAvailable) && Filled(txnsAvailable, |txnsAvailable|) + WrapCount(m.prefilledtxn, i) == i
      {
        var prefilled := m.prefilledtxn[i];
        if prefilled.tx.isNull {
          assert !PrefilledOk(m, i);
          return INVALID;
        }
        last := last + Low32(prefilled.index + 1);
        if last > MAX_UINT32 || Low32(last) > |m.shorttxids| + i {
          assert !PrefilledOk(m, i);
          return INVALID;
        }
        if last < 0 {
          return UNDEFINED;
        }
        PlacedNext(m, i, txnsAvailable);
        FilledPut(txnsAvailable, last, Some(prefilled.tx), |txnsAvailable|);
        txnsAvailable := txnsAvailable[last := Some(prefilled.tx)];
      }
      return OK;
    }

    // The loop that gives each short id its position: the next one that is not
    // prefilled.  `crowded` stands for the test of the hash table's bucket sizes.
    method MapShortIds(m: Compact, crowded: nat -> bool) returns (ids: Option<map<nat, nat>>)
      requires |txnsAvailable| == TxCount(m)
      requires Filled(txnsAvailable, |txnsAvailable|) + WrapCount(m.prefilledtxn, |m.prefilledtxn|) == |m.prefilledtxn| <= MAX_UINT32
      ensures |Gaps(txnsAvailable, |txnsAvailable|)| == |m.shorttxids| + WrapCount(m.prefilledtxn, |m.prefilledtxn|)
      ensures ids.None? || Mapped(m, ids.value, Lowered(Gaps(txnsAvailable, |txnsAvailable|)), |m.shorttxids|)
      ensures ids.None? <==> CrowdedTo(crowded, |m.shorttxids|)
    {
      GapsCount(txnsAvailable, |txnsAvailable|);
      ids := AssignAll(m, crowded, txnsAvailable);
      IdsMapped(m, Lowered(Gaps(txnsAvailable, |txnsAvailable|)), |m.shorttxids|);
    }

    method AssignAll(m: Compact, crowded: nat -> bool, ghost s: Slots) returns (ids: Option<map<nat, nat>>)
      requires s == txnsAvailable && |m.shorttxids| <= |Gaps(s, |s|)| && Filled(s, |s|) <= MAX_UINT32
      ensures ids.None? <==> CrowdedTo(crowded, |m.shorttxids|)
      ensures ids.Some? ==> ids.value == IdsTo(m, Lowered(Gaps(s, |s|)), |m.shorttxids|)
    {
      ghost var at := Lowered(Gaps(s, |s|));
      var shorttxids: map<nat, nat> := map[];
      var offset: uint32 := 0;
      for i := 0 to |m.shorttxids|
        invariant i + offset <= |s| && |Gaps(s, i + offset)| == i && !CrowdedTo(crowded, i)
        invariant shorttxids == IdsTo(m, at, i)
      {
        offset := NextGap(i, offset);
        GapAt(s, i, i + offset);
        shorttxids := shorttxids[m.shorttxids[i] := Low32(i + offset)];
        if crowded(i) {
          return None;
        }
      }
      return Some(shorttxids);
    }

    // Passes over the slots that are filled; there is always one that is not.
    method NextGap(i: nat, offset0: uint32) returns (offset: uint32)
      requires i + offset0 <= |txnsAvailable| && |Gaps(txnsAvailable, i + offset0)| == i
      requires i < |Gaps(txnsAvailable, |txnsAvailable|)| && Filled(txnsAvailable, |txnsAvailable|) <= MAX_UINT32
      ensures i + offset < |txnsAvailable| && txnsAvailable[i + offset].None?
      ensures |Gaps(txnsAvailable, i + offset)| == i
    {
      offset := offset0;
      while txnsAvailable[i + offset].Some?
        invariant i + offset < |txnsAvailable| && |Gaps(txnsAvailable, i + offset)| == i
        decreases |txnsAvailable| - offset
      {
        GapsCount(txnsAvailable, i + offset + 1);
        FilledMore(txnsAvailable, i + offset + 1, |txnsAvailable|);
        offset := offset + 1;
      }
    }

    // One transaction of the mempool: it takes the slot its short id leads to; a second
    // one for the same slot empties it.
    method OfferMempool(tx: Tx, have0: seq<bool>, ids: map<nat, nat>, short: ShortId, ghost s0: Slots) returns (have: seq<bool>)
      requires Searching(s0, txnsAvailable, have0, mempoolCount, ids)
      requires InRange(ids, s0)
      modifies this`txnsAvailable, this`mempoolCount
      ensures Searching(s0, txnsAvailable, have, mempoolCount, ids)
      ensures short(tx.hash) !in ids ==> txnsAvailable == old(txnsAvailable) && have == have0
      ensures short(tx.hash) in ids ==>
                var q := ids[short(tx.hash)];
                txnsAvailable == old(txnsAvailable)[q := if have0[q] then None else Some(tx)] && have == have0[q := true]
    {
      have := have0;
      var id := short(tx.hash);
      if id in ids {
        var q := ids[id];
        SearchingPut(s0, txnsAvailable, have, mempoolCount, ids, id, if have[q] then None else Some(tx));
        if !have[q] {
          txnsAvailable := txnsAvailable[q := Some(tx)];
          have := have[q := true];
          mempoolCount := mempoolCount + 1;
        } else {
          assert have[q := true] == have;
          if txnsAvailable[q].Some? {
            txnsAvailable := txnsAvailable[q := None];
            mempoolCount := mempoolCount - 1;
          }
        }
      }
    }

    // One extra transaction: a second one empties the slot only if it is another.
    method OfferExtra(x: Extra, have0: seq<bool>, ids: map<nat, nat>, short: ShortId, ghost s0: Slots) returns (have: seq<bool>)
      requires Searching(s0, txnsAvailable, have0, mempoolCount, ids)
      requires InRange(ids, s0)
      modifies this`txnsAvailable, this`mempoolCount
      ensures Searching(s0, txnsAvailable, have, mempoolCount, ids)
      ensures short(x.hash) !in ids ==> txnsAvailable == old(txnsAvailable) && have == have0
      ensures short(x.hash) in ids ==>
                var q := ids[short(x.hash)];
                have == have0[q := true] && txnsAvailable == old(txnsAvailable)[q := AfterExtra(have0[q], old(txnsAvailable)[q], x.tx)]
    {
      have := have0;
      var id := short(x.hash);
      if id in ids {
        var q := ids[id];
        if !have[q] {
          SearchingPut(s0, txnsAvailable, have, mempoolCount, ids, id, Some(x.tx));
          txnsAvailable := txnsAvailable[q := Some(x.tx)];
          have := have[q := true];
          mempoolCount := mempoolCount + 1;
        } else {
          assert have[q := true] == have;
          if txnsAvailable[q].Some? && txnsAvailable[q].value.hash != x.tx.hash {
            SearchingPut(s0, txnsAvailable, have, mempoolCount, ids, id, None);
            txnsAvailable := txnsAvailable[q := None];
            mempoolCount := mempoolCount - 1;
          }
        }
      }
    }
  
    // The loop over the mempool, with its early exit.
    method SearchMempool(mempool: seq<Tx>, have0: seq<bool>, ids: map<nat, nat>, short: ShortId, ghost s0: Slots,
                         ghost t: Target, ghost good: bool) returns (have: seq<bool>)
      requires Searching(s0, txnsAvailable, have0, mempoolCount, ids)
      requires InRange(ids, s0)
      requires !good || (TargetOk(t, short) && t.s0 == s0 && t.ids == ids && Filled(s0, |s0|) + |ids| == |s0| && AllTell(t.vtx, short, mempool))
      requires !good || (Kept(t, txnsAvailable, have0, [], true) && Noted(t, have0, []))
      modifies this`txnsAvailable, this`mempoolCount
      ensures Searching(s0, txnsAvailable, have, mempoolCount, ids)
      ensures !good || (Kept(t, txnsAvailable, have, mempool, Distinct(mempool)))
    {
      have := have0;
      for k := 0 to |mempool|
        invariant Searching(s0, txnsAvailable, have, mempoolCount, ids)
        invariant !good || (Kept(t, txnsAvailable, have, mempool[..k], Distinct(mempool)) && Noted(t, have, mempool[..k]))
      {
        ghost var s, h, count := txnsAvailable, have, mempoolCount;
        have := OfferMempool(mempool[k], have, ids, short, s0);
        if good {
          SearchedKeeps(s0, s, h, count, ids);
          MempoolStep(t, short, s, h, mempool, k);
        }
        if mempoolCount == |ids| {
          if good { SearchDone(t, s0, txnsAvailable, have, mempoolCount, ids, mempool[..k + 1], mempool, Distinct(mempool)); }
          return;
        }
      }
      assert mempool[..|mempool|] == mempool;
    }

    // One turn of the loop over the extra transactions; `seen` is what was offered before.
    method ExtraTurn(x: Extra, have0: seq<bool>, ids: map<nat, nat>, short: ShortId, ghost s0: Slots,
                     ghost t: Target, ghost good: bool, ghost seen: seq<Tx>, ghost kept: bool) returns (have: seq<bool>)
      requires Searching(s0, txnsAvailable, have0, mempoolCount, ids)
      requires InRange(ids, s0)
      requires !good || (TargetOk(t, short) && t.s0 == s0 && t.ids == ids && x.hash == x.tx.hash && Tells(t.vtx, short, x.tx))
      requires !good || (Kept(t, txnsAvailable, have0, seen, kept))
      modifies this`txnsAvailable, this`mempoolCount
      ensures Searching(s0, txnsAvailable, have, mempoolCount, ids)
      ensures !good || (Kept(t, txnsAvailable, have, seen + [x.tx], kept))
    {
      if good {
        SearchedKeeps(s0, txnsAvailable, have0, mempoolCount, ids);
        ExtraStep(t, short, txnsAvailable, have0, x, seen, kept);
      }
      have := OfferExtra(x, have0, ids, short, s0);
    }

    // The loop over the extra transactions, with its early exit; `all` is what is offered
    // in both loops.
    method SearchExtra(extra: seq<Extra>, have0: seq<bool>, ids: map<nat, nat>, short: ShortId, ghost s0: Slots,
                       ghost t: Target, ghost good: bool, ghost all: seq<Tx>, ghost kept: bool) returns (have: seq<bool>)
      requires Searching(s0, txnsAvailable, have0, mempoolCount, ids)
      requires InRange(ids, s0)
      requires |all| >= |extra| && forall k | 0 <= k < |extra| :: all[|all| - |extra| + k] == extra[k].tx
      requires !good || (TargetOk(t, short) && t.s0 == s0 && t.ids == ids && Filled(s0, |s0|) + |ids| == |s0| && ExtrasTell(t.vtx, short, extra))
      requires !good || Kept(t, txnsAvailable, have0, all[..|all| - |extra|], kept)
      modifies this`txnsAvailable, this`mempoolCount
      ensures Searching(s0, txnsAvailable, have, mempoolCount, ids)
      ensures !good || Kept(t, txnsAvailable, have, all, kept)
    {
      have := have0;
      for k := 0 to |extra|
        invariant Searching(s0, txnsAvailable, have, mempoolCount, ids)
        invariant !good || Kept(t, txnsAvailable, have, all[..|all| - |extra| + k], kept)
      {
        ghost var n := |all| - |extra| + k;
        have := ExtraTurn(extra[k], have, ids, short, s0, t, good, all[..n], kept);
        assert all[..n] + [extra[k].tx] == all[..n + 1];
        if mempoolCount == |ids| {
          if good { SearchDone(t, s0, txnsAvailable, have, mempoolCount, ids, all[..n + 1], all, kept); }
          return;
        }
      }
      assert all[..|all|] == all;
    }

    // Both searches, for a map without collisions.
    method Search(m: Compact, mempool: seq<Tx>, extra: seq<Extra>, ids: map<nat, nat>, short: ShortId, ghost vtx: seq<Tx>)
      requires Ready(m, txnsAvailable, ids) && mempoolCount == 0
      modifies this`txnsAvailable, this`mempoolCount
      ensures |txnsAvailable| == TxCount(m) && (FitsUint32(m) ==> Initialised(m, txnsAvailable, mempoolCount))
      ensures Matches(m, vtx, short, mempool, extra) ==> Rebuilds(txnsAvailable, vtx, mempool, extra)
    {
      ghost var s0, t := txnsAvailable, Target(vtx, txnsAvailable, ids);
      ghost var good := Matches(m, vtx, short, mempool, extra);
      var have: seq<bool> := seq(|txnsAvailable|, _ => false);
      IdsInRange(m, s0, ids);
      NothingTaken(s0, |s0|);
      if good { TargetReady(m, s0, ids, vtx, short); }
      have := SearchMempool(mempool, have, ids, short, s0, t, good);
      ghost var all := Offered(mempool, extra);
      have := SearchExtra(extra, have, ids, short, s0, t, good, all, Distinct(mempool));
      if good { KeptRebuilds(t, txnsAvailable, have, mempool, extra); }
      if FitsUint32(m) { SearchedInitialised(m, s0, txnsAvailable, have, mempoolCount, ids); }
    }

    // From the short ids on.
    method Match(m: Compact, mempool: seq<Tx>, extra: seq<Extra>, short: ShortId, crowded: nat -> bool, ghost vtx: seq<Tx>)
      returns (r: ReadStatus)
      requires Placed(m, txnsAvailable) && |m.prefilledtxn| <= MAX_UINT32 && mempoolCount == 0
      modifies this`txnsAvailable, this`mempoolCount
      ensures r == if Collide(m) || Crowded(m, crowded) then FAILED else OK
      ensures r == OK ==> |txnsAvailable| == TxCount(m) && (FitsUint32(m) ==> Initialised(m, txnsAvailable, mempoolCount))
      ensures r == OK && Matches(m, vtx, short, mempool, extra) ==> Rebuilds(txnsAvailable, vtx, mempool, extra)
    {
      var ids := MapShortIds(m, crowded);
      if ids.None? {
        return FAILED;
      }
      CollideIff(m, ids.value, Lowered(Gaps(txnsAvailable, |txnsAvailable|)));
      if |ids.value| != |m.shorttxids| {
        return FAILED;
      }
      Search(m, mempool, extra, ids.value, short, vtx);
      return OK;
    }

    // What becomes of every message.  If it passes and describes a block, and short ids
    // tell the pools' transactions from the block's, what is found is the block's, and all
    // of the block that is in the pools.
    method InitData(m: Compact, mempool: seq<Tx>, extra: seq<Extra>, short: ShortId, maxTxs: nat, crowded: nat -> bool,
                    ghost vtx: seq<Tx>) returns (r: ReadStatus)
      requires headerIsNull && txnsAvailable == [] && mempoolCount == 0
      requires |m.prefilledtxn| <= MAX_UINT32              // no longer vector is ever read
      modifies this
      ensures r == if m.headerIsNull || TxCount(m) == 0 || TxCount(m) > maxTxs then INVALID
                   else if WritesOutside(m) then UNDEFINED
                   else if !AllPrefilledOk(m) then INVALID
                   else if Collide(m) || Crowded(m, crowded) then FAILED
                   else OK
      ensures r == OK ==> !headerIsNull && |txnsAvailable| == TxCount(m)
      ensures r == OK && FitsUint32(m) ==> Initialised(m, txnsAvailable, mempoolCount)
      ensures r == OK && Matches(m, vtx, short, mempool, extra) ==> Rebuilds(txnsAvailable, vtx, mempool, extra)
    {
      if m.headerIsNull || (|m.shorttxids| == 0 && |m.prefilledtxn| == 0) {
        return INVALID;
      }
      if |m.shorttxids| + |m.prefilledtxn| > maxTxs {
        return INVALID;
      }
      headerIsNull := m.headerIsNull;
      txnsAvailable := seq(TxCount(m), _ => None);
      r := PlacePrefilled(m);
      if r != OK {
        return;
      }
      prefilledCount := |m.prefilledtxn|;
      r := Match(m, mempool, extra, short, crowded, vtx);
    }

    method IsTxAvailable(index: nat) returns (r: bool)
      requires !headerIsNull && index < |txnsAvailable|
      ensures r == txnsAvailable[index].Some?
    {
      r := txnsAvailable[index].Some?;
    }

    // Fills the gaps in order; `check` stands for CheckBlock.  With too few transactions it
    // stops at the first gap without one, and the slots before have been moved from.
    method FillBlock(vtxMissing: seq<Tx>, check: seq<Tx> -> ReadStatus) returns (r: ReadStatus, vtx: seq<Tx>)
      requires !headerIsNull
      modifies this
      ensures var s := old(txnsAvailable); var gaps := Gaps(s, |s|);
              if |vtxMissing| < |gaps| then
                r == INVALID && !headerIsNull && StoppedAt(s, vtxMissing, gaps[|vtxMissing|], txnsAvailable, vtx)
              else
                && headerIsNull && txnsAvailable == [] && vtx == Completed(s, vtxMissing, |s|)
                && r == if |vtxMissing| > |gaps| then INVALID else check(vtx)
    {
      ghost var s := txnsAvailable;
      vtx := [];
      var offset: nat := 0;
      var n := |txnsAvailable|;
      for i := 0 to n
        invariant |txnsAvailable| == |s| && !headerIsNull
        invariant forall k | 0 <= k < |s| :: txnsAvailable[k] == if k < i then None else s[k]
        invariant offset == |Gaps(s, i)| <= |vtxMissing| && vtx == Completed(s, vtxMissing, i)
      {
        GapsPrefix(s, i + 1, |s|);
        if txnsAvailable[i].None? {
          if |vtxMissing| <= offset {
            GapAt(s, offset, i);
            return INVALID, vtx;
          }
          vtx := vtx + [vtxMissing[offset]];
          offset := offset + 1;
        } else {
          vtx := vtx + [txnsAvailable[i].value];
          txnsAvailable := txnsAvailable[i := None];
        }
      }
      headerIsNull := true;
      txnsAvailable := [];
      if |vtxMissing| != offset {
        return INVALID, vtx;
      }
      r := check(vtx);
    }
  }

  // The slots below q have been moved from into the block, and the others are as before.
  ghost predicate StoppedAt(s: Slots, missing: seq<Tx>, q: nat, s': Slots, vtx: seq<Tx>) {
    && q < |s| == |s'| && (forall k | 0 <= k < |s| :: s'[k] == if k < q then None else s[k])
    && |Gaps(s, q)| <= |missing| && vtx == Completed(s, missing, q)
  }

  // The slots hold the block's own, and with `kept` all of what was seen of it.
  ghost predicate Kept(t: Target, s: Slots, have: seq<bool>, seen: seq<Tx>, kept: bool) {
    Sound(s, t.vtx) && (kept ==> Keeping(t, s, have, seen))
  }

  lemma KeptAll(t: Target, s: Slots, have: seq<bool>, seen: seq<Tx>, all: seq<Tx>, kept: bool)
    requires Kept(t, s, have, seen, kept) && seen <= all && forall q | 0 <= q < |s| :: s[q].Some?
    ensures Kept(t, s, have, all, kept)
  {
    if kept { KeepAll(t, s, have, seen, all); }
  }

  // The search may stop when all is there.
  lemma SearchDone(t: Target, s0: Slots, s: Slots, have: seq<bool>, count: int, ids: map<nat, nat>, seen: seq<Tx>, all: seq<Tx>, kept: bool)
    requires Searching(s0, s, have, count, ids) && Vacant(ids, s0) && count == |ids| && Filled(s0, |s0|) + |ids| == |s0|
    requires Kept(t, s, have, seen, kept) && seen <= all
    ensures Kept(t, s, have, all, kept)
  {
    AllFilled(s0, s, have, count, ids);
    KeptAll(t, s, have, seen, all, kept);
  }

  ghost predicate AllTell(vtx: seq<Tx>, short: ShortId, pool: seq<Tx>) {
    forall k | 0 <= k < |pool| :: Tells(vtx, short, pool[k])
  }

  ghost predicate ExtrasTell(vtx: seq<Tx>, short: ShortId, extra: seq<Extra>) {
    forall k | 0 <= k < |extra| :: extra[k].hash == extra[k].tx.hash && Tells(vtx, short, extra[k].tx)
  }

  // Everything that is offered, in order.
  ghost function Offered(mempool: seq<Tx>, extra: seq<Extra>): (all: seq<Tx>)
    ensures |all| == |mempool| + |extra| && all[..|mempool|] == mempool
    ensures forall k | 0 <= k < |extra| :: all[|mempool| + k] == extra[k].tx
  {
    mempool + seq(|extra|, k requires 0 <= k < |extra| => extra[k].tx)
  }

  // What OfferMempool does keeps the slots sound and, if the pool is distinct, all of
  // it kept.
  lemma MempoolStep(t: Target, short: ShortId, s: Slots, have: seq<bool>, mempool: seq<Tx>, k: nat)
    requires k < |mempool| && TargetOk(t, short) && Tells(t.vtx, short, mempool[k]) && |have| == |s| == |t.s0|
    requires forall q | 0 <= q < |t.s0| && t.s0[q].Some? :: s[q].Some?
    requires Kept(t, s, have, mempool[..k], Distinct(mempool)) && Noted(t, have, mempool[..k])
    ensures var id := short(mempool[k].hash);
            if id !in t.ids then Kept(t, s, have, mempool[..k + 1], Distinct(mempool)) && Noted(t, have, mempool[..k + 1])
            else
              var q := t.ids[id];
              && Kept(t, s[q := if have[q] then None else Some(mempool[k])], have[q := true], mempool[..k + 1], Distinct(mempool))
              && Noted(t, have[q := true], mempool[..k + 1])
  {
    var x := mempool[k];
    assert mempool[..k + 1] == mempool[..k] + [x];
    Leads(t, short, x);
    if short(x.hash) in t.ids {
      var q := t.ids[short(x.hash)];
      SoundPut(t, short, s, x, if have[q] then None else Some(x));
      if Distinct(mempool) {
        assert x !in mempool[..k];
        KeepNew(t, short, s, have, mempool[..k], x);
      }
    } else if Distinct(mempool) {
      KeepOther(t, short, s, have, mempool[..k], x);
    }
  }

  lemma ExtraStep(t: Target, short: ShortId, s: Slots, have: seq<bool>, x: Extra, seen: seq<Tx>, kept: bool)
    requires TargetOk(t, short) && x.hash == x.tx.hash && Tells(t.vtx, short, x.tx) && |have| == |s| == |t.s0|
    requires forall q | 0 <= q < |t.s0| && t.s0[q].Some? :: s[q].Some?
    requires Kept(t, s, have, seen, kept)
    ensures if short(x.hash) !in t.ids then Kept(t, s, have, seen + [x.tx], kept)
            else
              var q := t.ids[short(x.hash)];
              Kept(t, s[q := AfterExtra(have[q], s[q], x.tx)], have[q := true], seen + [x.tx], kept)
  {
    Leads(t, short, x.tx);
    if short(x.hash) in t.ids {
      var q := t.ids[short(x.hash)];
      SoundPut(t, short, s, x.tx, Some(x.tx));
      assert s[q].Some? ==> s[q].value == x.tx;
      if have[q] {
        assert s[q := s[q]] == s && have[q := true] == have;
      }
      if kept { KeepNew(t, short, s, have, seen, x.tx); }
    } else if kept {
      KeepOther(t, short, s, have, seen, x.tx);
    }
  }

  /******* From the message to the slots *******/

  ghost predicate Placed(m: Compact, s: Slots) {
    PlacedTo(m, |m.prefilledtxn|, s) && Filled(s, |s|) + WrapCount(m.prefilledtxn, |m.prefilledtxn|) == |m.prefilledtxn|
  }

  // One of the first n short ids makes its bucket too large.
  ghost predicate CrowdedTo(crowded: nat -> bool, n: nat) {
    exists i: nat :: i < n && crowded(i)
  }

  ghost predicate Crowded(m: Compact, crowded: nat -> bool) {
    CrowdedTo(crowded, |m.shorttxids|)
  }

  // Every position of the block is kept whole in 32 bits.
  ghost predicate FitsUint32(m: Compact) {
    TxCount(m) <= 0x1_0000_0000
  }

  // The positions of the short ids are kept whole if and only if the last of them is.
  lemma PositionsKeptIff(s: Slots, n: nat)
    requires 0 < n <= |Gaps(s, |s|)|
    ensures (forall k | 0 <= k < n :: Low32(Gaps(s, |s|)[k]) == Gaps(s, |s|)[k]) <==> Gaps(s, |s|)[n - 1] <= MAX_UINT32
  {
    GapsAre(s, |s|);
    var g := Gaps(s, |s|);
    if g[n - 1] <= MAX_UINT32 {
      assert forall k | 0 <= k < n - 1 :: g[k] < g[n - 1];
    }
  }

  ghost predicate Collide(m: Compact) {
    exists j, k :: 0 <= j < k < |m.shorttxids| && m.shorttxids[j] == m.shorttxids[k]
  }

  // The map is smaller than the list exactly when two short ids are the same.
  lemma CollideIff(m: Compact, ids: map<nat, nat>, g: seq<nat>)
    requires |m.shorttxids| <= |g| && Mapped(m, ids, g, |m.shorttxids|)
    ensures |ids| == |m.shorttxids| <==> !Collide(m)
  {
    if !Collide(m) { SizeOfDistinct(m.shorttxids, ids.Keys); }
  }

  lemma {:induction false} SizeOfDistinct(s: seq<nat>, keys: set<nat>)
    requires (forall j, k | 0 <= j < k < |s| :: s[j] != s[k]) && forall j | 0 <= j < |s| :: s[j] in keys
    ensures |s| <= |keys|
  {
    if s != [] {
      var last, rest := s[|s| - 1], s[..|s| - 1];
      SizeOfDistinct(rest, keys - {last});
    }
  }

  // Short ids tell every transaction of the pools from the block's others.
  ghost predicate Unambiguous(vtx: seq<Tx>, short: ShortId, mempool: seq<Tx>, extra: seq<Extra>) {
    AllTell(vtx, short, mempool) && ExtrasTell(vtx, short, extra)
  }

  // The message describes the block, which has positions of 32 bits, and short ids tell.
  ghost predicate Matches(m: Compact, vtx: seq<Tx>, short: ShortId, mempool: seq<Tx>, extra: seq<Extra>) {
    FitsUint32(m) && Describes(m, vtx, short) && Unambiguous(vtx, short, mempool, extra)
  }

  // What is available is the block's, and of a pool without repetitions everything the
  // block has is available.
  ghost predicate Rebuilds(s: Slots, vtx: seq<Tx>, mempool: seq<Tx>, extra: seq<Extra>) {
    && Sound(s, vtx)
    && (Distinct(mempool) ==>
          forall q | 0 <= q < |s| && (vtx[q] in mempool || InExtra(vtx[q], extra)) :: s[q].Some?)
  }

  ghost predicate InExtra(x: Tx, extra: seq<Extra>) {
    exists k :: 0 <= k < |extra| && extra[k].tx == x
  }

  // Prefilled transactions are in place, and mempool_count counts the others.
  ghost predicate Initialised(m: Compact, s: Slots, count: int) {
    && |s| == TxCount(m)
    && Filled(s, |s|) + WrapCount(m.prefilledtxn, |m.prefilledtxn|) == |m.prefilledtxn| + count
    && forall i | 0 <= i < |m.prefilledtxn| && LastThere(m.prefilledtxn, |m.prefilledtxn|, i) ::
         0 <= IndexOf(m.prefilledtxn, i) < |s| && s[IndexOf(m.prefilledtxn, i)] == Some(m.prefilledtxn[i].tx)
  }

  lemma {:induction false} NothingTaken(s: Slots, n: nat)
    requires n <= |s|
    ensures Taken(s, seq(|s|, _ => false), n) == 0
  {
    if n > 0 { NothingTaken(s, n - 1); }
  }

  lemma SearchedInitialised(m: Compact, s0: Slots, s: Slots, have: seq<bool>, count: int, ids: map<nat, nat>)
    requires Ready(m, s0, ids) && FitsUint32(m) && Searching(s0, s, have, count, ids)
    ensures Initialised(m, s, count)
  {
    IdsVacant(m, s0, ids);
    SearchedKeeps(s0, s, have, count, ids);
    forall i | 0 <= i < |m.prefilledtxn| && LastThere(m.prefilledtxn, |m.prefilledtxn|, i)
      ensures 0 <= IndexOf(m.prefilledtxn, i) < |s| && s[IndexOf(m.prefilledtxn, i)] == Some(m.prefilledtxn[i].tx)
    {
      assert InPlace(m.prefilledtxn, |m.prefilledtxn|, s0, i);
    }
  }

  // A map without collisions for the slots that are prefilled.
  ghost predicate Ready(m: Compact, s: Slots, ids: map<nat, nat>) {
    Placed(m, s) && |ids| == |m.shorttxids| <= |Gaps(s, |s|)| && Mapped(m, ids, Lowered(Gaps(s, |s|)), |m.shorttxids|)
  }

  lemma {:induction false} GapsBelow(s: Slots, n: nat)
    requires n <= |s|
    ensures forall k | 0 <= k < |Gaps(s, n)| :: Gaps(s, n)[k] < n && s[Gaps(s, n)[k]].None?
  {
    if n > 0 { GapsBelow(s, n - 1); }
  }

  lemma IdsInRange(m: Compact, s: Slots, ids: map<nat, nat>)
    requires Ready(m, s, ids)
    ensures InRange(ids, s)
  {
    GapsBelow(s, |s|);
    forall id | id in ids ensures ids[id] < |s| {
      assert AtGap(m, Lowered(Gaps(s, |s|)), |m.shorttxids|, id, ids[id]);
    }
  }

  lemma LoweredSame(m: Compact, s: Slots)
    requires |s| == TxCount(m) && FitsUint32(m)
    ensures Lowered(Gaps(s, |s|)) == Gaps(s, |s|)
  {
    GapsBelow(s, |s|);
  }

  lemma IdsVacant(m: Compact, s: Slots, ids: map<nat, nat>)
    requires Ready(m, s, ids) && FitsUint32(m)
    ensures Vacant(ids, s)
  {
    GapsBelow(s, |s|);
    LoweredSame(m, s);
    forall id | id in ids ensures ids[id] < |s| && s[ids[id]].None? {
      assert AtGap(m, Gaps(s, |s|), |m.shorttxids|, id, ids[id]);
    }
  }

  lemma PrefilledSound(m: Compact, s: Slots, vtx: seq<Tx>, short: ShortId)
    requires Placed(m, s) && Describes(m, vtx, short)
    ensures Sound(s, vtx) && ShortIdsAt(m, vtx, short, Gaps(s, |s|))
  {
    forall q | 0 <= q < |s| && s[q].Some? ensures s[q].value == vtx[q] {
      assert IsPrefilled(m, |m.prefilledtxn|, q);
      var i :| 0 <= i < |m.prefilledtxn| && IndexOf(m.prefilledtxn, i) == q;
      var j := LastOf(m.prefilledtxn, |m.prefilledtxn|, i);
      assert InPlace(m.prefilledtxn, |m.prefilledtxn|, s, j);
    }
  }

  // The id at a gap leads to it.
  lemma GapLeads(m: Compact, s: Slots, ids: map<nat, nat>, vtx: seq<Tx>, short: ShortId, q: nat)
    requires Ready(m, s, ids) && FitsUint32(m) && ShortIdsAt(m, vtx, short, Gaps(s, |s|)) && |vtx| == |s| && q < |s| && s[q].None?
    ensures var id := short(vtx[q].hash); id in ids && ids[id] == q
  {
    GapsAre(s, |s|);
    LoweredSame(m, s);
    var g := Gaps(s, |s|);
    assert q in g;
    var j :| 0 <= j < |g| && g[j] == q;
    assert AllAtGaps(m, ids, g, |g|) && m.shorttxids[j] == short(vtx[q].hash);
  }

  lemma IdLeads(m: Compact, s: Slots, ids: map<nat, nat>, vtx: seq<Tx>, short: ShortId, id: nat)
    requires Ready(m, s, ids) && FitsUint32(m) && |vtx| == |s| && ShortIdsAt(m, vtx, short, Gaps(s, |s|)) && id in ids
    ensures ids[id] < |vtx| && short(vtx[ids[id]].hash) == id
  {
    LoweredSame(m, s);
    assert AtGap(m, Gaps(s, |s|), |m.shorttxids|, id, ids[id]);
  }

  lemma TargetReady(m: Compact, s: Slots, ids: map<nat, nat>, vtx: seq<Tx>, short: ShortId)
    requires Ready(m, s, ids) && FitsUint32(m) && Describes(m, vtx, short)
    ensures Filled(s, |s|) + |ids| == |s|
    ensures TargetOk(Target(vtx, s, ids), short)
    ensures Kept(Target(vtx, s, ids), s, seq(|s|, _ => false), [], true)
    ensures Noted(Target(vtx, s, ids), seq(|s|, _ => false), [])
  {
    PrefilledSound(m, s, vtx, short);
    GapsCount(s, |s|);
    IdsVacant(m, s, ids);
    forall id | id in ids ensures short(vtx[ids[id]].hash) == id {
      IdLeads(m, s, ids, vtx, short, id);
    }
    forall q | 0 <= q < |s| && s[q].None? ensures var id := short(vtx[q].hash); id in ids && ids[id] == q {
      GapLeads(m, s, ids, vtx, short, q);
    }
  }

  lemma KeptRebuilds(t: Target, s: Slots, have: seq<bool>, mempool: seq<Tx>, extra: seq<Extra>)
    requires Kept(t, s, have, Offered(mempool, extra), Distinct(mempool))
    ensures Rebuilds(s, t.vtx, mempool, extra)
  {
    var all := Offered(mempool, extra);
    forall q | 0 <= q < |s| && (t.vtx[q] in mempool || InExtra(t.vtx[q], extra)) && Distinct(mempool) ensures s[q].Some? {
      var j := OfferedHas(mempool, extra, t.vtx[q]);
      assert Found(t, s, all[j]);
    }
  }

  lemma OfferedHas(mempool: seq<Tx>, extra: seq<Extra>, x: Tx) returns (j: nat)
    requires x in mempool || InExtra(x, extra)
    ensures j < |Offered(mempool, extra)| && Offered(mempool, extra)[j] == x
  {
    var all := Offered(mempool, extra);
    if x in mempool {
      j :| 0 <= j < |mempool| && mempool[j] == x;
      assert all[..|mempool|][j] == mempool[j];
    } else {
      var k :| 0 <= k < |extra| && extra[k].tx == x;
      j := |mempool| + k;
      assert all[|mempool| + k] == extra[k].tx;
    }
  }

  /******* End to end *******/

  // The slots with the gaps filled in order, up to n.
  ghost function Completed(s: Slots, missing: seq<Tx>, n: nat): (r: seq<Tx>)
    requires n <= |s| && |Gaps(s, n)| <= |missing|
    ensures |r| == n
  {
    if n == 0 then []
    else if s[n - 1].Some? then Completed(s, missing, n - 1) + [s[n - 1].value]
    else Completed(s, missing, n - 1) + [missing[|Gaps(s, n - 1)|]]
  }

  // The transactions at the gaps, in order.
  ghost predicate MissingOf(s: Slots, vtx: seq<Tx>, missing: seq<Tx>) {
    && |s| == |vtx| && |missing| == |Gaps(s, |s|)|
    && forall k | 0 <= k < |missing| :: Gaps(s, |s|)[k] < |vtx| && missing[k] == vtx[Gaps(s, |s|)[k]]
  }

  // Sound slots and the missing transactions make up the block.
  lemma {:induction false} CompletedIsBlock(s: Slots, vtx: seq<Tx>, missing: seq<Tx>, n: nat)
    requires Sound(s, vtx) && MissingOf(s, vtx, missing) && n <= |s|
    ensures |Gaps(s, n)| <= |missing| && Completed(s, missing, n) == vtx[..n]
  {
    GapsPrefix(s, n, |s|);
    if n > 0 {
      CompletedIsBlock(s, vtx, missing, n - 1);
      assert vtx[..n] == vtx[..n - 1] + [vtx[n - 1]];
      if s[n - 1].None? { GapAt(s, |Gaps(s, n - 1)|, n - 1); }
    }
  }

  // The block can be sent: it is within the limit, its first transaction is one, the
  // short ids of the others are all different, and no bucket gets crowded.
  ghost predicate Sendable(vtx: seq<Tx>, short: ShortId, maxTxs: nat, crowded: nat -> bool) {
    && 0 < |vtx| <= maxTxs && !vtx[0].isNull && (forall i: nat | i < |vtx| - 1 :: !crowded(i))
    && forall j, k | 0 < j < k < |vtx| :: short(vtx[j].hash) != short(vtx[k].hash)
  }

  // The sender's block is sent as a message and put together by the receiver, who asks
  // for what is not available: the outcome is the sender's block, and always so if it
  // can be sent.
  method Transfer(vtx: seq<Tx>, short: ShortId, mempool: seq<Tx>, extra: seq<Extra>, maxTxs: nat, crowded: nat -> bool,
                  check: seq<Tx> -> ReadStatus) returns (r: ReadStatus, block: seq<Tx>)
    requires |vtx| > 0
    ensures |vtx| <= 0x1_0000_0000 && Unambiguous(vtx, short, mempool, extra) && r == OK ==> block == vtx && check(vtx) == OK
    ensures |vtx| <= 0x1_0000_0000 && Unambiguous(vtx, short, mempool, extra) && Sendable(vtx, short, maxTxs, crowded) ==>
              block == vtx && r == check(vtx)
  {
    var m := CompactOf(vtx, short);
    var p := new PartiallyDownloadedBlock();
    r := p.InitData(m, mempool, extra, short, maxTxs, crowded, vtx);
    block := [];
    ghost var good := |vtx| <= 0x1_0000_0000 && Unambiguous(vtx, short, mempool, extra);
    if Sendable(vtx, short, maxTxs, crowded) { SendableAccepted(m, vtx, short, maxTxs, crowded); }
    if r == OK {
      var missing := AskFor(p, vtx);
      if good {
        CompletedIsBlock(p.txnsAvailable, vtx, missing, |vtx|);
        assert vtx[..|vtx|] == vtx;
      }
      r, block := p.FillBlock(missing, check);
    }
  }

  lemma SendableAccepted(m: Compact, vtx: seq<Tx>, short: ShortId, maxTxs: nat, crowded: nat -> bool)
    requires Sendable(vtx, short, maxTxs, crowded) && m.prefilledtxn == [Prefilled(0, vtx[0])]
    requires |m.shorttxids| == |vtx| - 1 && forall k | 0 <= k < |vtx| - 1 :: m.shorttxids[k] == short(vtx[k + 1].hash)
    ensures AllPrefilledOk(m) && !Collide(m) && TxCount(m) == |vtx| && !Crowded(m, crowded) && !WritesOutside(m)
  {
    assert IndexOf(m.prefilledtxn, 0) == IndexOf(m.prefilledtxn, -1) + 1;
    forall j, k | 0 <= j < k < |m.shorttxids| ensures m.shorttxids[j] != m.shorttxids[k] {
      assert short(vtx[j + 1].hash) != short(vtx[k + 1].hash);
    }
  }

  // The missing transactions, in the order of the block.
  method AskFor(p: PartiallyDownloadedBlock, vtx: seq<Tx>) returns (missing: seq<Tx>)
    requires !p.headerIsNull && |p.txnsAvailable| == |vtx|
    ensures MissingOf(p.txnsAvailable, vtx, missing)
  {
    missing := [];
    ghost var s := p.txnsAvailable;
    for i := 0 to |vtx|
      invariant |missing| == |Gaps(s, i)|
      invariant forall k | 0 <= k < |missing| :: Gaps(s, i)[k] < |vtx| && missing[k] == vtx[Gaps(s, i)[k]]
    {
      var available := p.IsTxAvailable(i);
      if !available {
        missing := missing + [vtx[i]];
      }
    }
  }
}
