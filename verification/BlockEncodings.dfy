/**
  Compact blocks (src/blockencodings.h, src/blockencodings.cpp; BIP152): building one
  from a block, placing what is known of it, filling in what was missing, and the
  differential coding of the indexes in a request.
 */
module BlockEncodings {

  import opened Basics

  datatype Tx = Tx(hash: nat, isNull: bool)

  datatype Prefilled = Prefilled(index: nat, tx: Tx)

  datatype CompactBlock = CompactBlock(headerIsNull: bool, shortIds: seq<nat>, prefilled: seq<Prefilled>) {
    function TxCount(): nat {
      |shortIds| + |prefilled|
    }
  }

  datatype ReadStatus = Ok | Invalid | Failed | CheckBlockFailed

  /** What a call of `InitData` comes to: it returns, or one of its loops goes on for ever. */
  datatype Answer = Returns(status: ReadStatus) | Endless

  /** MAX_BLOCK_SIZE / MIN_TRANSACTION_SIZE. */
  const MAX_TXS: nat := 1572864 / 10

  type Slots = seq<Option<Tx>>

  // ----- Free and filled slots -----

  /** The empty slots among the first `n`, in order. */
  ghost function Free(a: Slots, n: nat): (r: seq<nat>)
    requires n <= |a|
    ensures forall i :: 0 <= i < |r| ==> r[i] < n && a[r[i]].None?
  {
    if n == 0 then [] else Free(a, n - 1) + if a[n - 1].None? then [n - 1] else []
  }

  ghost function FilledCount(a: Slots): nat {
    if a == [] then 0 else FilledCount(a[..|a| - 1]) + if a[|a| - 1].Some? then 1 else 0
  }

  lemma {:induction false} FreePrefix(a: Slots, m: nat, n: nat)
    requires m <= n <= |a|
    ensures Free(a, m) <= Free(a, n)
    decreases n
  {
    if m < n {
      FreePrefix(a, m, n - 1);
    }
  }

  lemma {:induction false} FreeCount(a: Slots)
    ensures |Free(a, |a|)| + FilledCount(a) == |a|
    decreases |a|
  {
    if a != [] {
      FreeCount(a[..|a| - 1]);
      FreeSame(a[..|a| - 1], a, |a| - 1);
    }
  }

  lemma {:induction false} FreeSame(a: Slots, b: Slots, n: nat)
    requires n <= |a| && n <= |b| && forall k :: 0 <= k < n ==> a[k].None? == b[k].None?
    ensures Free(a, n) == Free(b, n)
    decreases n
  {
    if n > 0 {
      FreeSame(a, b, n - 1);
    }
  }

  lemma {:induction false} FilledUpdate(a: Slots, i: nat, x: Option<Tx>)
    requires i < |a|
    ensures FilledCount(a[i := x]) == FilledCount(a) + (if x.Some? then 1 else 0) - (if a[i].Some? then 1 else 0)
    decreases |a|
  {
    var n := |a| - 1;
    if i == n {
      assert a[i := x][..n] == a[..n];
    } else {
      FilledUpdate(a[..n], i, x);
      assert a[i := x][..n] == a[..n][i := x];
    }
  }

  lemma {:induction false} FilledNone(a: Slots)
    requires forall k :: 0 <= k < |a| ==> a[k].None?
    ensures FilledCount(a) == 0
    decreases |a|
  {
    if a != [] {
      FilledNone(a[..|a| - 1]);
    }
  }

  // ----- Prefilled transactions -----

  /** The slot before which the first `n` prefilled transactions end; indexes are differences. */
  ghost function Position(pre: seq<Prefilled>, n: nat): int
    requires n <= |pre|
  {
    if n == 0 then -1 else Position(pre, n - 1) + pre[n - 1].index + 1
  }

  /** The slot of a prefilled transaction. */
  ghost function SlotOf(pre: seq<Prefilled>, i: nat): int
    requires i < |pre|
  {
    Position(pre, i + 1)
  }

  /** A prefilled transaction is real and leaves no slot before it without a source. */
  ghost predicate FitsIn(cm: CompactBlock, i: nat)
    requires i < |cm.prefilled|
  {
    !cm.prefilled[i].tx.isNull && SlotOf(cm.prefilled, i) <= 0xFFFF && SlotOf(cm.prefilled, i) <= |cm.shortIds| + i
  }

  ghost predicate WellPlaced(cm: CompactBlock, n: nat)
    requires n <= |cm.prefilled|
  {
    forall i :: 0 <= i < n ==> FitsIn(cm, i)
  }

  lemma {:induction false} PositionsGrow(pre: seq<Prefilled>, m: nat, n: nat)
    requires m < n <= |pre|
    ensures -1 <= Position(pre, m) < Position(pre, n)
    decreases n
  {
    if m < n - 1 {
      PositionsGrow(pre, m, n - 1);
    } else {
      PositionAtLeast(pre, m);
    }
  }

  lemma {:induction false} PositionAtLeast(pre: seq<Prefilled>, n: nat)
    requires n <= |pre|
    ensures Position(pre, n) >= -1
  {
    if n > 0 {
      PositionAtLeast(pre, n - 1);
    }
  }

  /** Slots hold the first `n` prefilled transactions and nothing else. */
  ghost predicate Holds(cm: CompactBlock, n: nat, a: Slots)
    requires n <= |cm.prefilled|
  {
    && |a| == cm.TxCount() && FilledCount(a) == n
    && (forall i :: 0 <= i < n ==>
        0 <= SlotOf(cm.prefilled, i) < |a| && a[SlotOf(cm.prefilled, i)] == Some(cm.prefilled[i].tx))
    && (forall p :: 0 <= p < |a| && a[p].Some? ==> IsSlot(cm.prefilled, n, p))
  }

  ghost predicate IsSlot(pre: seq<Prefilled>, n: nat, p: nat)
    requires n <= |pre|
  {
    exists i :: 0 <= i < n && SlotOf(pre, i) == p
  }

  /** The first loop of `InitData`. */
  method PlacePrefilled(cm: CompactBlock) returns (ok: bool, a: Slots)
    ensures ok <==> WellPlaced(cm, |cm.prefilled|)
    ensures ok ==> Holds(cm, |cm.prefilled|, a)
  {
    a := seq(cm.TxCount(), _ => None);
    FilledNone(a);
    var lastPrefilledIndex := -1;
    for i := 0 to |cm.prefilled|
      invariant lastPrefilledIndex == Position(cm.prefilled, i)
      invariant WellPlaced(cm, i) && Holds(cm, i, a)
    {
      var pre := cm.prefilled[i];
      assert !FitsIn(cm, i) ==> !WellPlaced(cm, |cm.prefilled|);
      if pre.tx.isNull {
        return false, a;
      }
      PositionAtLeast(cm.prefilled, i);
      lastPrefilledIndex := lastPrefilledIndex + pre.index + 1;
      if lastPrefilledIndex > 0xFFFF {
        return false, a;
      }
      if lastPrefilledIndex > |cm.shortIds| + i {
        return false, a;
      }
      HoldsNext(cm, i, a);
      a := a[lastPrefilledIndex := Some(pre.tx)];
    }
    ok := true;
  }

  lemma HoldsNext(cm: CompactBlock, i: nat, a: Slots)
    requires i < |cm.prefilled| && Holds(cm, i, a) && FitsIn(cm, i)
    ensures 0 <= SlotOf(cm.prefilled, i) < |a|
    ensures Holds(cm, i + 1, a[SlotOf(cm.prefilled, i) := Some(cm.prefilled[i].tx)])
  {
    var pre := cm.prefilled;
    PositionAtLeast(pre, i);
    var p := SlotOf(pre, i);
    forall k | 0 <= k < i ensures SlotOf(pre, k) < p {
      PositionsGrow(pre, k + 1, i + 1);
    }
    assert a[p].None?;
    FilledUpdate(a, p, Some(pre[i].tx));
    forall q | 0 <= q < |a| && (a[q].Some? || q == p) ensures IsSlot(pre, i + 1, q) {
      if q == p {
        assert SlotOf(pre, i) == q;
      } else {
        assert IsSlot(pre, i, q);
        var k :| 0 <= k < i && SlotOf(pre, k) == q;
      }
    }
  }

  // ----- Short ids -----

  /** The ids among the first `n`. */
  ghost function IdSet(short: seq<nat>, n: nat): set<nat>
    requires n <= |short|
  {
    if n == 0 then {} else IdSet(short, n - 1) + {short[n - 1]}
  }

  /** No id occurs twice among the first `n`. */
  ghost predicate Distinct(short: seq<nat>, n: nat)
    requires n <= |short|
  {
    n == 0 || (Distinct(short, n - 1) && short[n - 1] !in IdSet(short, n - 1))
  }

  lemma {:induction false} InIdSet(short: seq<nat>, k: nat, n: nat)
    requires k < n <= |short|
    ensures short[k] in IdSet(short, n)
    decreases n
  {
    if k < n - 1 {
      InIdSet(short, k, n - 1);
    }
  }

  /** The map is as large as the list exactly if no two short ids are equal. */
  lemma {:induction false} DistinctMeans(short: seq<nat>, n: nat)
    requires n <= |short|
    ensures Distinct(short, n) <==> forall i, j :: 0 <= i < j < n ==> short[i] != short[j]
    decreases n
  {
    if n > 0 {
      DistinctMeans(short, n - 1);
      forall i | 0 <= i < n - 1 ensures short[i] in IdSet(short, n - 1) {
        InIdSet(short, i, n - 1);
      }
      if short[n - 1] in IdSet(short, n - 1) {
        var i := Occurs(short, n - 1, short[n - 1]);
      }
    }
  }

  lemma {:induction false} Occurs(short: seq<nat>, n: nat, id: nat) returns (i: nat)
    requires n <= |short| && id in IdSet(short, n)
    ensures i < n && short[i] == id
    decreases n
  {
    if short[n - 1] == id {
      i := n - 1;
    } else {
      i := Occurs(short, n - 1, id);
    }
  }

  /** Each of the first `n` short ids stands for the empty slot of the same rank. */
  ghost predicate MapsInOrder(ids: map<nat, nat>, short: seq<nat>, n: nat, free: seq<nat>)
    requires n <= |short| && n <= |free|
  {
    forall i :: 0 <= i < n ==> short[i] in ids && ids[short[i]] == free[i]
  }

  /** No two short ids are equal and no bucket of the hash table is too full. */
  ghost predicate Mappable(short: seq<nat>, crowded: seq<bool>) {
    && (forall i, j :: 0 <= i < j < |short| ==> short[i] != short[j])
    && (forall i :: 0 <= i < |crowded| ==> !crowded[i])
  }

  /** Slot numbers as the map keeps them, in 16 bits. */
  ghost function Wrapped(free: seq<nat>): (r: seq<nat>)
    ensures |r| == |free| && forall i :: 0 <= i < |r| ==> r[i] == free[i] % 0x1_0000
  {
    seq(|free|, i requires 0 <= i < |free| => free[i] % 0x1_0000)
  }

  /** Prefilled slots have 16-bit numbers. */
  ghost predicate FilledLow(a: Slots) {
    forall p :: 0x1_0000 <= p < |a| ==> a[p].None?
  }

  /** Whether the second loop of `InitData` ends: with all of 65536 low slots filled it does not. */
  ghost predicate Ends(short: seq<nat>, a: Slots) {
    short == [] || |a| - |short| <= 0xFFFF
  }

  /**
    The second loop of `InitData`.  `crowded` is the outcome of the test on the hash
    table's bucket sizes after each insertion.
   */
  method MapShortIds(short: seq<nat>, a: Slots, crowded: seq<bool>) returns (ends: bool, ok: bool, ids: map<nat, nat>)
    requires |crowded| == |short| && |Free(a, |a|)| == |short| && FilledLow(a)
    ensures ends <==> Ends(short, a)
    ensures ends ==> (ok <==> Mappable(short, crowded))
    ensures ends && ok ==>
              MapsInOrder(ids, short, |short|, Wrapped(Free(a, |a|))) && ids.Keys == IdSet(short, |short|)
                && |ids| == |short|
  {
    ends, ok, ids := true, false, map[];
    var offset := 0;
    ghost var wrapped := Wrapped(Free(a, |a|));
    for i := 0 to |short|
      invariant 0 <= offset <= 0xFFFF && Reached(a, i, i + offset) && (i > 0 ==> Ends(short, a))
      invariant IdsInv(ids, short, i, wrapped)
      invariant forall k :: 0 <= k < i ==> !crowded[k]
    {
      ends, offset := SkipFilled(a, i, offset);
      if !ends {
        return;
      }
      ids := AddId(ids, short, i, wrapped, (i + offset) % 0x1_0000);
      if crowded[i] {
        return;
      }
    }
    DistinctMeans(short, |short|);
    ok := |ids| == |short|;
  }

  /** The map leads each short id to its slot exactly if no slot has a number beyond 16 bits. */
  lemma InOrderExactly(short: seq<nat>, a: Slots, ids: map<nat, nat>)
    requires |Free(a, |a|)| == |short| && FilledLow(a) && MapsInOrder(ids, short, |short|, Wrapped(Free(a, |a|)))
    ensures MapsInOrder(ids, short, |short|, Free(a, |a|)) <==> |a| <= 0x1_0000 || short == []
  {
    var free := Free(a, |a|);
    if |a| <= 0x1_0000 {
      forall i | 0 <= i < |free| ensures free[i] == Wrapped(free)[i] {
        assert free[i] < |a|;
      }
    } else {
      assert a[|a| - 1].None?;
      var last := |free| - 1;
      assert free[last] == |a| - 1 && Wrapped(free)[last] != free[last];
      assert short[last] in ids && ids[short[last]] == Wrapped(free)[last];
    }
  }

  /** `i` slots below `p` are empty. */
  ghost predicate Reached(a: Slots, i: nat, p: nat) {
    p <= |a| && |Free(a, p)| == i
  }

  /** The 16-bit offset after `n` rounds of the loop that skips filled slots. */
  ghost function Turn(start: nat, n: nat): nat {
    (start + n) % 0x1_0000
  }

  /** The loop that skips filled slots is at an empty one after `n` rounds, so that it ends there at the latest. */
  ghost predicate Meets(a: Slots, i: nat, start: nat, n: nat) {
    i + Turn(start, n) < |a| && a[i + Turn(start, n)].None?
  }

  /**
    The loop that skips filled slots.  It ends if some round meets an empty slot; after
    65536 rounds without one the offset is back where it was and none ever will.
   */
  method SkipFilled(a: Slots, i: nat, start: nat) returns (ends: bool, offset: nat)
    requires start <= 0xFFFF && Reached(a, i, i + start) && i < |Free(a, |a|)| && FilledLow(a)
    ensures ends <==> exists n: nat :: Meets(a, i, start, n)
    ensures ends <==> |a| - |Free(a, |a|)| <= 0xFFFF
    ensures !ends ==> i == 0
    ensures ends ==> start <= offset <= 0xFFFF && Free(a, |a|)[i] == i + offset && Reached(a, i + 1, i + 1 + offset)
  {
    ghost var fits := |a| - |Free(a, |a|)| <= 0xFFFF;
    if fits {
      NextFree(a, i, start);
    } else {
      AllLowFilled(a, i, start);
    }
    offset := start;
    var rounds := 0;
    while a[i + offset].Some?
      invariant 0 <= rounds <= 0xFFFF && offset == Turn(start, rounds)
      invariant fits ==> offset == start + rounds && i + offset <= Free(a, |a|)[i]
      invariant forall k :: 0 <= k < rounds ==> !Meets(a, i, start, k)
      decreases 0x1_0000 - rounds
    {
      if rounds == 0xFFFF {
        RoundAndRound(a, i, start);
        return false, offset;
      }
      NextTurn(start, rounds);
      offset := (offset + 1) % 0x1_0000;
      rounds := rounds + 1;
    }
    assert Meets(a, i, start, rounds);
    ends := true;
  }

  lemma NextTurn(start: nat, n: nat)
    ensures Turn(start, n + 1) == (Turn(start, n) + 1) % 0x1_0000
  {
  }

  /** All rounds have been seen after 65536 of them. */
  lemma RoundAndRound(a: Slots, i: nat, start: nat)
    requires forall k :: 0 <= k < 0x1_0000 ==> !Meets(a, i, start, k)
    ensures forall n: nat :: !Meets(a, i, start, n)
  {
    forall n: nat ensures !Meets(a, i, start, n) {
      SameTurn(start, n);
      assert !Meets(a, i, start, n % 0x1_0000);
    }
  }

  lemma SameTurn(start: nat, n: nat)
    ensures Turn(start, n % 0x1_0000) == Turn(start, n)
  {
    var q, r := n / 0x1_0000, n % 0x1_0000;
    assert start + n == start + r + 0x1_0000 * q;
  }

  lemma {:induction false} FreeRank(a: Slots, n: nat, k: nat)
    requires n <= |a| && k < |Free(a, n)|
    ensures |Free(a, Free(a, n)[k])| == k
    decreases n
  {
    if k < |Free(a, n - 1)| {
      FreeRank(a, n - 1, k);
    }
  }

  lemma {:induction false} FreeGrows(a: Slots, m: nat, n: nat)
    requires m <= n <= |a|
    ensures |Free(a, m)| <= |Free(a, n)| <= |Free(a, m)| + (n - m)
    decreases n
  {
    if m < n {
      FreeGrows(a, m, n - 1);
    }
  }

  /** The next empty slot is at most as many slots ahead as are filled. */
  lemma NextFree(a: Slots, i: nat, start: nat)
    requires Reached(a, i, i + start) && i < |Free(a, |a|)| && |a| - |Free(a, |a|)| <= 0xFFFF
    ensures var p := Free(a, |a|)[i];
            && i + start <= p <= i + 0xFFFF && p < |a| && a[p].None? && Reached(a, i + 1, p + 1)
            && forall q :: i + start <= q < p ==> a[q].Some?
  {
    var p := Free(a, |a|)[i];
    FreeRank(a, |a|, i);
    FreeGrows(a, p, |a|);
    assert |Free(a, p + 1)| == i + 1;
    if p < i + start {
      FreeGrows(a, p + 1, i + start);
    }
    forall q | i + start <= q < p ensures a[q].Some? {
      FreeGrows(a, i + start, q);
      FreeGrows(a, q + 1, p);
    }
  }

  /** More than 65535 filled slots with 16-bit numbers are all there are. */
  lemma LowFilled(a: Slots)
    requires FilledLow(a) && |a| - |Free(a, |a|)| > 0xFFFF
    ensures |a| >= 0x1_0000 && |Free(a, 0x1_0000)| == 0
  {
    HighFree(a, |a|);
  }

  /** ... and the search is at the first of them. */
  lemma AllLowFilled(a: Slots, i: nat, start: nat)
    requires start <= 0xFFFF && Reached(a, i, i + start) && FilledLow(a) && |a| - |Free(a, |a|)| > 0xFFFF
    ensures i == 0 && |a| >= 0x1_0000 && forall p :: 0 <= p < 0x1_0000 ==> a[p].Some?
  {
    LowFilled(a);
    NoneFree(a, 0x1_0000);
    if i + start <= 0x1_0000 {
      FreeGrows(a, i + start, 0x1_0000);
    } else {
      HighFree(a, i + start);
    }
  }

  lemma NoneFree(a: Slots, n: nat)
    requires n <= |a| && |Free(a, n)| == 0
    ensures forall p :: 0 <= p < n ==> a[p].Some?
  {
    forall p | 0 <= p < n ensures a[p].Some? {
      if a[p].None? {
        var k := FreeHas(a, n, p);
      }
    }
  }

  lemma {:induction false} HighFree(a: Slots, n: nat)
    requires 0x1_0000 <= n <= |a| && FilledLow(a)
    ensures |Free(a, n)| == |Free(a, 0x1_0000)| + n - 0x1_0000
    decreases n
  {
    if n > 0x1_0000 {
      HighFree(a, n - 1);
    }
  }

  /** As long as the map is as large as the list read so far, the ids in it are distinct and in order. */
  ghost predicate IdsInv(ids: map<nat, nat>, short: seq<nat>, i: nat, free: seq<nat>)
    requires i <= |short| == |free|
  {
    && ids.Keys == IdSet(short, i) && |ids| <= i
    && (|ids| == i <==> Distinct(short, i))
    && (|ids| == i ==> MapsInOrder(ids, short, i, free))
  }

  method AddId(ids: map<nat, nat>, short: seq<nat>, i: nat, ghost free: seq<nat>, p: nat) returns (r: map<nat, nat>)
    requires i < |short| == |free| && IdsInv(ids, short, i, free) && p == free[i]
    ensures IdsInv(r, short, i + 1, free)
  {
    r := ids[short[i] := p];
    assert r.Keys == ids.Keys + {short[i]};
    if short[i] in ids {
      assert r.Keys == ids.Keys;
    } else {
      forall k | 0 <= k < i ensures short[k] != short[i] {
        InIdSet(short, k, i);
      }
    }
  }

  // ----- Looking through what is at hand -----

  datatype Offer = Offer(hash: nat, tx: Tx)

  /** The slots, which of them have been offered a transaction, and how many were filled by an offer. */
  datatype Search = Search(slots: Slots, have: seq<bool>, count: nat)

  /** What the search goes through: the offers of the memory pool, then, from `split` on, the extra ones. */
  datatype Hunt = Hunt(offers: seq<Offer>, ids: map<nat, nat>, shortId: nat -> nat, split: nat)

  /** Offer `j` has the short id of slot `p`. */
  ghost predicate Matches(h: Hunt, j: nat, p: nat)
    requires j < |h.offers|
  {
    var id := h.shortId(h.offers[j].hash);
    id in h.ids && h.ids[id] == p
  }

  /** Offer `j` matches slot `p` and is looked at, the search of the pool having ended at `stop`. */
  ghost predicate Seen(h: Hunt, stop: nat, j: nat, p: nat)
    requires j < |h.offers|
  {
    (j < stop || h.split <= j) && Matches(h, j, p)
  }

  /**
    Of the offers below `n` that are looked at, `i` is the first for slot `p`; any other
    comes from the extra transactions and is the same transaction.
   */
  ghost predicate Wins(h: Hunt, stop: nat, n: nat, p: nat, i: nat)
    requires n <= |h.offers|
  {
    && i < n && Seen(h, stop, i, p)
    && (forall j :: 0 <= j < n && j != i && Seen(h, stop, j, p) ==>
        i < j && h.split <= j && h.offers[j].tx.hash == h.offers[i].tx.hash)
  }

  /** A slot that was empty in the layout holds the winner of the offers so far, or nothing if there is none. */
  ghost predicate Settled(slot: Option<Tx>, h: Hunt, stop: nat, n: nat, p: nat)
    requires n <= |h.offers|
  {
    && (slot.Some? ==> exists i: nat :: Wins(h, stop, n, p, i) && h.offers[i].tx == slot.value)
    && (slot.None? ==> forall i: nat :: !Wins(h, stop, n, p, i))
  }

  /** A slot that no offer was for is as it was. */
  ghost predicate SlotSearched(s: Search, layout: Slots, h: Hunt, stop: nat, n: nat, p: nat)
    requires n <= |h.offers| && p < |s.slots| == |s.have| == |layout|
  {
    && (s.have[p] <==> exists j :: 0 <= j < n && Seen(h, stop, j, p))
    && (if s.have[p] then Settled(s.slots[p], h, stop, n, p) else s.slots[p] == layout[p])
  }

  /** The slots that hold an offer. */
  ghost function Found(s: Search): set<nat>
    requires |s.slots| == |s.have|
  {
    set p: nat | p < |s.slots| && s.have[p] && s.slots[p].Some?
  }

  ghost predicate Searched(s: Search, layout: Slots, h: Hunt, stop: nat, n: nat)
    requires n <= |h.offers|
  {
    && |s.slots| == |s.have| == |layout| && s.count == |Found(s)|
    && (forall p :: 0 <= p < |layout| ==> SlotSearched(s, layout, h, stop, n, p))
  }

  /** The ids lead to slots. */
  ghost predicate LeadsToSlots(ids: map<nat, nat>, count: nat) {
    forall id <- ids :: ids[id] < count
  }

  /**
    What both search loops do with a match: the first offer fills the slot, a second
    one empties it again, unless it is the same transaction and `sameIsFine`.
   */
  ghost predicate Taken(s: Search, r: Search, p: nat, tx: Tx, sameIsFine: bool)
    requires p < |s.slots| == |s.have|
  {
    && |r.slots| == |r.have| == |s.slots| && r.have == s.have[p := true] && r.slots == s.slots[p := r.slots[p]]
    && r.count == s.count + (if r.slots[p].Some? then 1 else 0) - (if s.have[p] && s.slots[p].Some? then 1 else 0)
    && (!s.have[p] ==> r.slots[p] == Some(tx))
    && (s.have[p] ==>
        r.slots[p] == if s.slots[p].Some? && sameIsFine && s.slots[p].value.hash == tx.hash then s.slots[p] else None)
  }

  method Take(s: Search, p: nat, tx: Tx, sameIsFine: bool) returns (r: Search)
    requires p < |s.slots| == |s.have| && (s.slots[p].Some? && s.have[p] ==> s.count > 0)
    ensures Taken(s, r, p, tx, sameIsFine)
  {
    r := s;
    if !s.have[p] {
      r := Search(s.slots[p := Some(tx)], s.have[p := true], s.count + 1);
    } else if s.slots[p].Some? && !(sameIsFine && s.slots[p].value.hash == tx.hash) {
      r := Search(s.slots[p := None], s.have, s.count - 1);
    }
  }

  lemma FoundUpdate(s: Search, r: Search, p: nat)
    requires p < |s.slots| == |s.have| && r.have == s.have[p := true] && |r.slots| == |s.slots|
             && r.slots == s.slots[p := r.slots[p]]
    ensures Found(r) == if r.slots[p].Some? then Found(s) + {p} else Found(s) - {p}
  {
    forall q: nat ensures q in Found(r) <==> if q == p then r.slots[p].Some? else q in Found(s) {
    }
  }

  lemma FoundTaken(s: Search, r: Search, p: nat, tx: Tx, sameIsFine: bool)
    requires p < |s.slots| == |s.have| && s.count == |Found(s)|
    requires Taken(s, r, p, tx, sameIsFine)
    ensures r.count == |Found(r)|
  {
    var found := Found(s);
    assert p in found <==> s.have[p] && s.slots[p].Some?;
    FoundUpdate(s, r, p);
    SetUpdate(found, p);
  }

  lemma SetUpdate(a: set<nat>, p: nat)
    ensures |a + {p}| == |a| + (if p in a then 0 else 1) && |a - {p}| == |a| - (if p in a then 1 else 0)
  {
    if p in a {
      assert a + {p} == a;
    } else {
      assert a - {p} == a;
    }
  }

  lemma TakenKeeps(s: Search, r: Search, layout: Slots, h: Hunt, stop: nat, n: nat, p: nat)
    requires n < |h.offers| && Searched(s, layout, h, stop, n)
    requires p < |layout| && Seen(h, stop, n, p) && Taken(s, r, p, h.offers[n].tx, h.split <= n)
    ensures Searched(r, layout, h, stop, n + 1)
  {
    FoundTaken(s, r, p, h.offers[n].tx, h.split <= n);
    var m := n + 1;
    forall q | 0 <= q < |layout| ensures SlotSearched(r, layout, h, stop, m, q) {
      if q == p {
        SlotTaken(s, r, layout, h, stop, n, p);
      } else {
        SlotSame(s, r, layout, h, stop, stop, n, m, q);
      }
    }
  }

  lemma SlotTaken(s: Search, r: Search, layout: Slots, h: Hunt, stop: nat, n: nat, p: nat)
    requires n < |h.offers| && p < |s.slots| == |s.have| == |layout| && SlotSearched(s, layout, h, stop, n, p)
    requires Seen(h, stop, n, p) && Taken(s, r, p, h.offers[n].tx, h.split <= n)
    ensures SlotSearched(r, layout, h, stop, n + 1, p)
  {
    if !s.have[p] {
      assert Wins(h, stop, n + 1, p, n);
    } else {
      var k :| 0 <= k < n && Seen(h, stop, k, p);
      WinnerNext(s.slots[p], r.slots[p], h, stop, n, n + 1, p, k);
      assert Seen(h, stop, n, p);
    }
  }

  lemma WinnerNext(slot: Option<Tx>, slot': Option<Tx>, h: Hunt, stop: nat, n: nat, m: nat, p: nat, k: nat)
    requires m == n + 1 <= |h.offers| && Settled(slot, h, stop, n, p)
    requires Seen(h, stop, n, p) && k < n && Seen(h, stop, k, p)
    requires slot' == if slot.Some? && h.split <= n && slot.value.hash == h.offers[n].tx.hash then slot else None
    ensures Settled(slot', h, stop, m, p)
  {
    forall i: nat ensures Wins(h, stop, m, p, i) <==> StillWins(h, stop, n, p, i) {
      WinsNext(h, stop, n, p, i, k);
    }
    if slot.Some? {
      var w: nat :| Wins(h, stop, n, p, w) && h.offers[w].tx == slot.value;
      OneWinner(h, stop, n, p, w);
      assert StillWins(h, stop, n, p, w) <==> slot'.Some?;
      assert forall i: nat :: StillWins(h, stop, n, p, i) ==> i == w;
    } else {
      assert forall i: nat :: !StillWins(h, stop, n, p, i);
    }
  }

  /** A winner stays one if the next offer for the slot is an extra one and the same transaction. */
  ghost predicate StillWins(h: Hunt, stop: nat, n: nat, p: nat, i: nat)
    requires n < |h.offers|
  {
    Wins(h, stop, n, p, i) && h.split <= n && h.offers[n].tx.hash == h.offers[i].tx.hash
  }

  lemma WinsNext(h: Hunt, stop: nat, n: nat, p: nat, i: nat, k: nat)
    requires n < |h.offers| && Seen(h, stop, n, p) && k < n && Seen(h, stop, k, p)
    ensures Wins(h, stop, n + 1, p, i) <==> StillWins(h, stop, n, p, i)
  {
  }

  lemma OneWinner(h: Hunt, stop: nat, n: nat, p: nat, w: nat)
    requires n <= |h.offers| && Wins(h, stop, n, p, w)
    ensures forall i: nat :: Wins(h, stop, n, p, i) ==> i == w
  {
  }

  /** What a slot holds depends only on which offers for it were looked at. */
  lemma SlotSame(s: Search, r: Search, layout: Slots, h: Hunt, stop: nat, later: nat, n: nat, m: nat, p: nat)
    requires n <= m <= |h.offers| && p < |s.slots| == |s.have| == |layout| && SlotSearched(s, layout, h, stop, n, p)
    requires |r.slots| == |r.have| == |s.slots| && r.slots[p] == s.slots[p] && r.have[p] == s.have[p]
    requires forall j :: 0 <= j < n ==> (Seen(h, stop, j, p) <==> Seen(h, later, j, p))
    requires forall j :: n <= j < m ==> !Seen(h, later, j, p)
    ensures SlotSearched(r, layout, h, later, m, p)
  {
    forall i: nat ensures Wins(h, stop, n, p, i) <==> Wins(h, later, m, p, i) {
    }
  }

  /** Leaving the loop over the pool at `n` means that the rest of the pool is not looked at. */
  lemma PoolLeft(s: Search, layout: Slots, h: Hunt, n: nat)
    requires n <= h.split <= |h.offers| && Searched(s, layout, h, h.split, n)
    ensures Searched(s, layout, h, n, h.split)
  {
    forall p | 0 <= p < |layout| ensures SlotSearched(s, layout, h, n, h.split, p) {
      SlotSame(s, s, layout, h, h.split, n, n, h.split, p);
    }
  }

  lemma {:induction false} FreeHas(a: Slots, n: nat, p: nat) returns (k: nat)
    requires p < n <= |a| && a[p].None?
    ensures k < |Free(a, n)| && Free(a, n)[k] == p
    decreases n
  {
    if p < n - 1 {
      k := FreeHas(a, n - 1, p);
    } else {
      k := |Free(a, n)| - 1;
    }
  }

  lemma {:induction false} FewValues(m: map<nat, nat>)
    ensures |m.Values| <= |m|
    decreases |m|
  {
    if m == map[] {
      assert m.Values == {};
    } else {
      var k :| k in m;
      var rest := m - {k};
      assert rest.Keys == m.Keys - {k};
      FewValues(rest);
      forall v <- m.Values ensures v in rest.Values + {m[k]} {
        var i :| i in m && m[i] == v;
        assert i != k ==> i in rest && rest[i] == v;
      }
      SmallerSet(m.Values, rest.Values + {m[k]});
    }
  }

  lemma {:induction false} SmallerSet(a: set<nat>, b: set<nat>)
    requires a <= b
    ensures |a| <= |b| && (a != b ==> |a| < |b|)
  {
    assert b == a + (b - a);
    if a != b {
      assert b - a != {};
    }
  }

  /** Every slot that a short id stands for holds an offer. */
  ghost predicate AllFound(s: Search, ids: map<nat, nat>)
    requires |s.slots| == |s.have|
  {
    forall id <- ids :: ids[id] in Found(s)
  }

  /** When as many slots hold an offer as there are short ids, all have been filled. */
  lemma CountedAll(s: Search, layout: Slots, h: Hunt, stop: nat, n: nat)
    requires n <= |h.offers| && Searched(s, layout, h, stop, n) && s.count == |h.ids|
    ensures AllFound(s, h.ids)
  {
    forall p <- Found(s) ensures p in h.ids.Values {
      assert SlotSearched(s, layout, h, stop, n, p);
      var j :| 0 <= j < n && Seen(h, stop, j, p);
    }
    FewValues(h.ids);
    SmallerSet(Found(s), h.ids.Values);
    assert Found(s) == h.ids.Values;
    forall id <- h.ids ensures h.ids[id] in Found(s) {
    }
  }

  /**
    The loops over the memory pool and over the extra transactions, which stop early when
    every slot is filled; `end` is where this one ended.
   */
  method Scan(start: Search, h: Hunt, from: nat, to: nat, sameIsFine: bool, ghost layout: Slots, ghost stop: nat)
    returns (s: Search, ghost end: nat)
    requires from <= to <= |h.offers| && LeadsToSlots(h.ids, |layout|)
    requires if sameIsFine then h.split <= from else to <= h.split && to <= stop
    requires Searched(start, layout, h, stop, from)
    ensures from <= end <= to && Searched(s, layout, h, stop, end)
    ensures end < to ==> AllFound(s, h.ids)
  {
    s := start;
    var j := from;
    end := from;
    while j < to
      invariant from <= j <= to && end == j && Searched(s, layout, h, stop, j)
    {
      s := Consider(s, h, j, sameIsFine, layout, stop);
      j := j + 1;
      end := j;
      if s.count == |h.ids| {
        CountedAll(s, layout, h, stop, j);
        return;
      }
    }
  }

  /** One offer. */
  method Consider(s: Search, h: Hunt, j: nat, sameIsFine: bool, ghost layout: Slots, ghost stop: nat)
    returns (r: Search)
    requires j < |h.offers| && LeadsToSlots(h.ids, |layout|) && (j < stop || h.split <= j)
             && sameIsFine == (h.split <= j)
    requires Searched(s, layout, h, stop, j)
    ensures Searched(r, layout, h, stop, j + 1)
  {
    var id := h.shortId(h.offers[j].hash);
    if id in h.ids {
      var p := h.ids[id];
      assert s.have[p] && s.slots[p].Some? ==> p in Found(s);
      r := Take(s, p, h.offers[j].tx, sameIsFine);
      TakenKeeps(s, r, layout, h, stop, j, p);
    } else {
      r := s;
      ghost var m := j + 1;
      forall p | 0 <= p < |layout| ensures SlotSearched(r, layout, h, stop, m, p) {
        SlotSame(s, r, layout, h, stop, stop, j, m, p);
      }
    }
  }

  /**
    The end of both loops: every slot holds the winner of the offers for it that were
    looked at, and offers are left out only once every slot with a short id is filled.
   */
  ghost predicate Done(s: Search, layout: Slots, h: Hunt, stop: nat, end: nat) {
    && stop <= h.split <= end <= |h.offers| && Searched(s, layout, h, stop, end)
    && (end < |h.offers| ==> AllFound(s, h.ids))
    && (stop < h.split ==> AllWon(h, stop, h.split))
  }

  ghost predicate Won(h: Hunt, stop: nat, n: nat, p: nat)
    requires n <= |h.offers|
  {
    exists i: nat :: Wins(h, stop, n, p, i)
  }

  /** For every slot with a short id there is a winner. */
  ghost predicate AllWon(h: Hunt, stop: nat, n: nat)
    requires n <= |h.offers|
  {
    forall id <- h.ids :: Won(h, stop, n, h.ids[id])
  }

  lemma FoundWins(s: Search, layout: Slots, h: Hunt, stop: nat, n: nat)
    requires n <= |h.offers| && Searched(s, layout, h, stop, n) && AllFound(s, h.ids)
    ensures AllWon(h, stop, n)
  {
    forall id <- h.ids ensures Won(h, stop, n, h.ids[id]) {
      assert h.ids[id] in Found(s) && SlotSearched(s, layout, h, stop, n, h.ids[id]);
    }
  }

  /** Both search loops. */
  method FillFromPools(layout: Slots, h: Hunt) returns (s: Search, ghost stop: nat, ghost end: nat)
    requires LeadsToSlots(h.ids, |layout|) && h.split <= |h.offers|
    ensures Done(s, layout, h, stop, end)
  {
    s := Search(layout, seq(|layout|, _ => false), 0);
    assert Found(s) == {};
    s, stop := Scan(s, h, 0, h.split, false, layout, h.split);
    PoolLeft(s, layout, h, stop);
    if stop < h.split {
      FoundWins(s, layout, h, stop, h.split);
    }
    s, end := Scan(s, h, h.split, |h.offers|, true, layout, stop);
  }

  // ----- The partially downloaded block -----

  ghost predicate Describes(cm: CompactBlock, vtx: seq<Tx>, shortId: nat -> nat, layout: Slots) {
    && |vtx| == cm.TxCount() == |layout| && |Free(layout, |layout|)| == |cm.shortIds|
    && (forall i :: 0 <= i < |cm.prefilled| ==>
        0 <= SlotOf(cm.prefilled, i) < |vtx| && cm.prefilled[i].tx == vtx[SlotOf(cm.prefilled, i)])
    && (forall k :: 0 <= k < |cm.shortIds| ==> cm.shortIds[k] == shortId(vtx[Free(layout, |layout|)[k]].hash))
  }

  /** What is offered under the short id of a transaction of the block is that transaction. */
  ghost predicate NoCollision(offers: seq<Offer>, vtx: seq<Tx>, shortId: nat -> nat) {
    forall j, p :: 0 <= j < |offers| && 0 <= p < |vtx| && shortId(offers[j].hash) == shortId(vtx[p].hash) ==>
      offers[j].tx == vtx[p]
  }

  /** Where something is known about the block it is right. */
  ghost predicate Agrees(slots: Slots, vtx: seq<Tx>) {
    |slots| == |vtx| && forall p :: 0 <= p < |slots| && slots[p].Some? ==> slots[p].value == vtx[p]
  }

  class PartiallyDownloadedBlock {
    var headerIsNull: bool
    var txnAvailable: Slots
    var prefilledCount: nat
    var mempoolCount: nat

    constructor ()
      ensures headerIsNull && txnAvailable == [] && prefilledCount == 0 && mempoolCount == 0
    {
      headerIsNull, txnAvailable, prefilledCount, mempoolCount := true, [], 0, 0;
    }

    /** `InitData`.  How the search went is returned for the specification. */
    method InitData(cm: CompactBlock, shortId: nat -> nat, pool: seq<Offer>, extra: seq<Offer>, crowded: seq<bool>)
      returns (r: Answer, ghost o: Outcome)
      requires headerIsNull && txnAvailable == [] && |crowded| == |cm.shortIds|
      modifies this
      ensures r == Returns(Invalid) <==> !Admitted(cm)
      ensures r == Endless <==> Admitted(cm) && cm.shortIds != [] && |cm.prefilled| > 0xFFFF
      ensures r == Returns(Failed) <==> Admitted(cm) && r.Returns? && !Mappable(cm.shortIds, crowded)
      ensures r == Returns(Ok) <==> Admitted(cm) && r.Returns? && Mappable(cm.shortIds, crowded)
      ensures r == Returns(Ok) ==>
                Initialised(cm, o) && o.h.offers == pool + extra && o.h.split == |pool| && o.h.shortId == shortId
      ensures r == Returns(Ok) ==>
                !headerIsNull && txnAvailable == o.s.slots && mempoolCount == o.s.count
                  && prefilledCount == |cm.prefilled|
    {
      ghost var h := Hunt(pool + extra, map[], shortId, |pool|);
      o := Outcome([], h, Search([], [], 0), 0, 0);
      if cm.headerIsNull || (cm.shortIds == [] && cm.prefilled == []) {
        return Returns(Invalid), o;
      }
      if cm.TxCount() > MAX_TXS {
        return Returns(Invalid), o;
      }
      headerIsNull := false;
      var ok, a := PlacePrefilled(cm);
      txnAvailable := a;
      if !ok {
        return Returns(Invalid), o;
      }
      prefilledCount := |cm.prefilled|;
      FreeCount(a);
      PlacedLow(cm, a);
      var ends, ids;
      ends, ok, ids := MapShortIds(cm.shortIds, a, crowded);
      if !ends {
        return Endless, o;
      }
      if !ok {
        return Returns(Failed), o;
      }
      LeadsThere(cm.shortIds, ids, a);
      var s;
      ghost var stop, end;
      s, stop, end := FillFromPools(a, Hunt(pool + extra, ids, shortId, |pool|));
      txnAvailable, mempoolCount := s.slots, s.count;
      r, o := Returns(Ok), Outcome(a, Hunt(pool + extra, ids, shortId, |pool|), s, stop, end);
    }

    /** `IsTxAvailable`. */
    predicate IsTxAvailable(index: nat)
      reads this
      requires !headerIsNull && index < |txnAvailable|
    {
      txnAvailable[index].Some?
    }

    /** The request for what is missing: 16-bit indexes of the empty slots (src/net_processing.cpp:2214-2218). */
    method MissingIndexes() returns (indexes: seq<nat>)
      requires !headerIsNull
      ensures indexes == Wrapped(Free(txnAvailable, |txnAvailable|))
    {
      indexes := [];
      for i := 0 to |txnAvailable|
        invariant indexes == Wrapped(Free(txnAvailable, i))
      {
        if !IsTxAvailable(i) {
          indexes := indexes + [i % 0x1_0000];
        }
      }
    }

    /**
      `FillBlock`: the missing transactions go to the empty slots in order, the others are
      moved out of their slots.  With enough transactions the block cannot be filled again;
      with too few the header stays, and the slots before the first one that found none are
      left empty.
     */
    method FillBlock(missing: seq<Tx>, verdict: CheckResult) returns (status: ReadStatus, block: seq<Tx>)
      requires !headerIsNull
      modifies this
      ensures var free := old(Free(txnAvailable, |txnAvailable|));
              && (|missing| != |free| <==> status == Invalid)
              && (|missing| < |free| ==>
                  !headerIsNull && EmptiedBelow(old(txnAvailable), txnAvailable, free[|missing|]))
              && (|missing| >= |free| ==>
                  headerIsNull && txnAvailable == [] && FilledIn(old(txnAvailable), missing, block))
      ensures status != Invalid ==>
                match verdict
                case Good => status == Ok
                case Corrupt => status == Failed
                case Bad => status == CheckBlockFailed
      ensures prefilledCount == old(prefilledCount) && mempoolCount == old(mempoolCount)
    {
      ghost var slots := txnAvailable;
      var n := |txnAvailable|;
      block := [];
      var offset := 0;
      for i := 0 to n
        invariant !headerIsNull && EmptiedBelow(slots, txnAvailable, i) && |slots| == n
        invariant prefilledCount == old(prefilledCount) && mempoolCount == old(mempoolCount)
        invariant FilledTo(slots, missing, block, i) && offset == |Free(slots, i)|
      {
        EmptiedNext(slots, txnAvailable, i);
        if txnAvailable[i].None? {
          if |missing| <= offset {
            FirstUnserved(slots, missing, i);
            return Invalid, block;
          }
          FilledWith(slots, missing, block, i, missing[offset]);
          block := block + [missing[offset]];
          offset := offset + 1;
        } else {
          FilledWith(slots, missing, block, i, txnAvailable[i].value);
          block := block + [txnAvailable[i].value];
          txnAvailable := txnAvailable[i := None];
        }
      }
      headerIsNull, txnAvailable := true, [];
      if |missing| != offset {
        return Invalid, block;
      }
      status := StatusOf(verdict);
    }
  }

  /** The slots below `n` have been emptied, the others are as they were. */
  ghost predicate EmptiedBelow(before: Slots, after: Slots, n: nat) {
    |after| == |before| && forall p :: 0 <= p < |after| ==> after[p] == if p < n then None else before[p]
  }

  lemma EmptiedNext(before: Slots, after: Slots, n: nat)
    requires EmptiedBelow(before, after, n) && n < |before|
    ensures after[n] == before[n] && EmptiedBelow(before, after[n := None], n + 1)
    ensures after[n].None? ==> EmptiedBelow(before, after, n + 1)
  {
  }

  /** The first empty slot for which there is no transaction left. */
  lemma FirstUnserved(slots: Slots, missing: seq<Tx>, i: nat)
    requires i < |slots| && slots[i].None? && |missing| == |Free(slots, i)|
    ensures |missing| < |Free(slots, |slots|)| && Free(slots, |slots|)[|missing|] == i
  {
    FreePrefix(slots, i + 1, |slots|);
  }

  /** The layout of the prefilled transactions, and how the search for the others went. */
  datatype Outcome = Outcome(layout: Slots, h: Hunt, s: Search, stop: nat, end: nat)

  /** The message passes the first tests and its prefilled transactions can be placed. */
  ghost predicate Admitted(cm: CompactBlock) {
    !cm.headerIsNull && 0 < cm.TxCount() <= MAX_TXS && WellPlaced(cm, |cm.prefilled|)
  }

  /** A successful `InitData`. */
  ghost predicate Initialised(cm: CompactBlock, o: Outcome) {
    var free := Free(o.layout, |o.layout|);
    && Holds(cm, |cm.prefilled|, o.layout) && |free| == |cm.shortIds| && FilledLow(o.layout)
    && MapsInOrder(o.h.ids, cm.shortIds, |cm.shortIds|, Wrapped(free))
    && o.h.ids.Keys == IdSet(cm.shortIds, |cm.shortIds|)
    && Done(o.s, o.layout, o.h, o.stop, o.end)
  }

  lemma PlacedLow(cm: CompactBlock, a: Slots)
    requires WellPlaced(cm, |cm.prefilled|) && Holds(cm, |cm.prefilled|, a)
    ensures FilledLow(a)
  {
    forall p | 0 <= p < |a| && a[p].Some? ensures p <= 0xFFFF {
      assert IsSlot(cm.prefilled, |cm.prefilled|, p);
      var i :| 0 <= i < |cm.prefilled| && SlotOf(cm.prefilled, i) == p;
      assert FitsIn(cm, i);
    }
  }

  lemma LeadsThere(short: seq<nat>, ids: map<nat, nat>, layout: Slots)
    requires |Free(layout, |layout|)| == |short|
    requires MapsInOrder(ids, short, |short|, Wrapped(Free(layout, |layout|))) && ids.Keys == IdSet(short, |short|)
    ensures LeadsToSlots(ids, |layout|)
  {
    forall id <- ids ensures ids[id] < |layout| {
      var i := Occurs(short, |short|, id);
      Wraps(Free(layout, |layout|)[i]);
    }
  }

  lemma Wraps(x: nat)
    ensures x % 0x1_0000 <= x
  {
  }

  /**
    Prefilled slots hold their transaction; any other holds the winner of the offers that
    were looked at.
   */
  ghost predicate SlotsFilled(o: Outcome)
    requires o.end <= |o.h.offers|
  {
    && |o.s.slots| == |o.layout|
    && (forall p :: 0 <= p < |o.layout| && o.layout[p].Some? ==> o.s.slots[p] == o.layout[p])
    && (forall p :: 0 <= p < |o.layout| && o.layout[p].None? ==> Settled(o.s.slots[p], o.h, o.stop, o.end, p))
  }

  /** As long as slot numbers fit in 16 bits the prefilled transactions stay and all that is there is counted. */
  lemma PrefilledStay(cm: CompactBlock, o: Outcome)
    requires Initialised(cm, o) && (cm.TxCount() <= 0x1_0000 || cm.shortIds == [])
    ensures SlotsFilled(o) && o.s.count + |cm.prefilled| == FilledCount(o.s.slots)
  {
    InOrderExactly(cm.shortIds, o.layout, o.h.ids);
    forall p | 0 <= p < |o.layout| && o.s.have[p] ensures o.layout[p].None? {
      assert SlotSearched(o.s, o.layout, o.h, o.stop, o.end, p);
      var j :| 0 <= j < o.end && Seen(o.h, o.stop, j, p);
      var k := Occurs(cm.shortIds, |cm.shortIds|, o.h.shortId(o.h.offers[j].hash));
      assert Free(o.layout, |o.layout|)[k] == p;
    }
    forall p | 0 <= p < |o.layout|
      ensures if o.s.have[p] then Settled(o.s.slots[p], o.h, o.stop, o.end, p) else o.s.slots[p] == o.layout[p]
      ensures o.layout[p].None? ==> Settled(o.s.slots[p], o.h, o.stop, o.end, p)
    {
      assert SlotSearched(o.s, o.layout, o.h, o.stop, o.end, p);
    }
    CountsAdd(o.s, o.layout);
  }

  lemma {:induction false} CountsAdd(s: Search, layout: Slots)
    requires |s.slots| == |s.have| == |layout|
    requires forall p :: 0 <= p < |layout| ==> if s.have[p] then layout[p].None? else s.slots[p] == layout[p]
    ensures |Found(s)| + FilledCount(layout) == FilledCount(s.slots)
    decreases |layout|
  {
    if layout == [] {
      assert Found(s) == {};
    } else {
      var n := |layout| - 1;
      var t := Search(s.slots[..n], s.have[..n], 0);
      CountsAdd(t, layout[..n]);
      FoundLast(s, t, n);
    }
  }

  lemma FoundLast(s: Search, t: Search, n: nat)
    requires |s.slots| == |s.have| == n + 1 && t.slots == s.slots[..n] && t.have == s.have[..n]
    ensures |Found(s)| == |Found(t)| + if s.have[n] && s.slots[n].Some? then 1 else 0
  {
    forall q: nat ensures q in Found(s) <==> q in Found(t) || (q == n && s.have[n] && s.slots[n].Some?) {
    }
    if s.have[n] && s.slots[n].Some? {
      assert Found(s) == Found(t) + {n};
    } else {
      assert Found(s) == Found(t);
    }
  }

  /** An offer is left out only if another one is for the same slot. */
  lemma LeftOut(o: Outcome, p: nat, j: nat)
    requires Done(o.s, o.layout, o.h, o.stop, o.end) && p < |o.layout|
    requires j < |o.h.offers| && Matches(o.h, j, p) && (o.stop <= j < o.h.split || o.end <= j)
    ensures exists k :: 0 <= k < |o.h.offers| && k != j && Matches(o.h, k, p)
  {
    if o.end <= j {
      FoundWins(o.s, o.layout, o.h, o.stop, o.end);
      Another(o.h, o.stop, o.end, p, j);
    } else {
      Another(o.h, o.stop, o.h.split, p, j);
    }
  }

  lemma Another(h: Hunt, stop: nat, n: nat, p: nat, j: nat)
    requires n <= |h.offers| && j < |h.offers| && AllWon(h, stop, n) && Matches(h, j, p)
             && (stop <= j < h.split || n <= j)
    ensures exists k :: 0 <= k < |h.offers| && k != j && Matches(h, k, p)
  {
    assert Won(h, stop, n, h.ids[h.shortId(h.offers[j].hash)]);
    var i: nat :| Wins(h, stop, n, p, i);
    assert i != j && Matches(h, i, p);
  }

  /** A slot with exactly one matching offer is filled with it, wherever the search stopped. */
  lemma UniqueIsFilled(o: Outcome, p: nat, j: nat)
    requires Done(o.s, o.layout, o.h, o.stop, o.end) && p < |o.layout|
    requires j < |o.h.offers| && Matches(o.h, j, p)
    requires forall k :: 0 <= k < |o.h.offers| && k != j ==> !Matches(o.h, k, p)
    ensures o.s.slots[p] == Some(o.h.offers[j].tx)
  {
    if o.stop <= j < o.h.split || o.end <= j {
      LeftOut(o, p, j);
    } else {
      assert SlotSearched(o.s, o.layout, o.h, o.stop, o.end, p);
      assert Wins(o.h, o.stop, o.end, p, j);
    }
  }

  /** The outcome of `CheckBlock`. */
  datatype CheckResult = Good | Corrupt | Bad

  function StatusOf(v: CheckResult): ReadStatus {
    match v
    case Good => Ok
    case Corrupt => Failed
    case Bad => CheckBlockFailed
  }

  /** The block so far: what was in the first `i` slots, and the missing transactions in the empty ones. */
  ghost predicate FilledTo(slots: Slots, missing: seq<Tx>, block: seq<Tx>, i: nat) {
    && |block| == i <= |slots| && |missing| >= |Free(slots, i)|
    && (forall p :: 0 <= p < i && slots[p].Some? ==> block[p] == slots[p].value)
    && (forall k :: 0 <= k < |Free(slots, i)| ==> block[Free(slots, i)[k]] == missing[k])
  }

  ghost predicate FilledIn(slots: Slots, missing: seq<Tx>, block: seq<Tx>) {
    FilledTo(slots, missing, block, |slots|)
  }

  lemma FilledWith(slots: Slots, missing: seq<Tx>, block: seq<Tx>, i: nat, tx: Tx)
    requires i < |slots| && FilledTo(slots, missing, block, i)
    requires match slots[i]
             case None => |Free(slots, i)| < |missing| && tx == missing[|Free(slots, i)|]
             case Some(kept) => tx == kept
    ensures FilledTo(slots, missing, block + [tx], i + 1)
  {
  }

  // ----- Rebuilding the block -----

  /** Absent collisions, whatever `InitData` has put into a slot is the transaction of the block. */
  lemma InitAgrees(cm: CompactBlock, vtx: seq<Tx>, o: Outcome)
    requires Initialised(cm, o) && (cm.TxCount() <= 0x1_0000 || cm.shortIds == [])
    requires Describes(cm, vtx, o.h.shortId, o.layout) && NoCollision(o.h.offers, vtx, o.h.shortId)
    ensures Agrees(o.s.slots, vtx)
  {
    PrefilledStay(cm, o);
    InOrderExactly(cm.shortIds, o.layout, o.h.ids);
    forall p | 0 <= p < |vtx| && o.s.slots[p].Some? ensures o.s.slots[p].value == vtx[p] {
      if o.layout[p].Some? {
        assert IsSlot(cm.prefilled, |cm.prefilled|, p);
        var i :| 0 <= i < |cm.prefilled| && SlotOf(cm.prefilled, i) == p;
      } else {
        OfferAgrees(cm, vtx, o, p);
      }
    }
  }

  lemma OfferAgrees(cm: CompactBlock, vtx: seq<Tx>, o: Outcome, p: nat)
    requires o.end <= |o.h.offers| && p < |o.layout| == |o.s.slots| && o.s.slots[p].Some?
             && Settled(o.s.slots[p], o.h, o.stop, o.end, p)
    requires Describes(cm, vtx, o.h.shortId, o.layout) && NoCollision(o.h.offers, vtx, o.h.shortId)
    requires MapsInOrder(o.h.ids, cm.shortIds, |cm.shortIds|, Free(o.layout, |o.layout|))
             && o.h.ids.Keys == IdSet(cm.shortIds, |cm.shortIds|)
    ensures o.s.slots[p].value == vtx[p]
  {
    var j: nat :| Wins(o.h, o.stop, o.end, p, j) && o.h.offers[j].tx == o.s.slots[p].value;
    var k := Occurs(cm.shortIds, |cm.shortIds|, o.h.shortId(o.h.offers[j].hash));
    assert Free(o.layout, |o.layout|)[k] == p;
  }

  /** Filling what is right with what was missing gives the block back. */
  lemma FillRebuilds(slots: Slots, vtx: seq<Tx>, missing: seq<Tx>, block: seq<Tx>)
    requires Agrees(slots, vtx) && FilledIn(slots, missing, block)
    requires forall k :: 0 <= k < |Free(slots, |slots|)| ==> missing[k] == vtx[Free(slots, |slots|)[k]]
    ensures block == vtx
  {
    forall p | 0 <= p < |vtx| ensures block[p] == vtx[p] {
      if slots[p].None? {
        var k := FreeHas(slots, |slots|, p);
      }
    }
  }

  /** The short ids of all transactions but the coinbase. */
  ghost function ShortIds(vtx: seq<Tx>, shortId: nat -> nat): seq<nat>
    requires vtx != []
  {
    seq<nat>(|vtx| - 1, i requires 0 <= i < |vtx| - 1 => shortId(vtx[i + 1].hash))
  }

  /** The constructor of `CBlockHeaderAndShortTxIDs`: the coinbase in full, the rest by short id. */
  method FromBlock(vtx: seq<Tx>, shortId: nat -> nat) returns (cm: CompactBlock)
    requires vtx != []
    ensures !cm.headerIsNull && cm.shortIds == ShortIds(vtx, shortId) && |cm.prefilled| == 1
    ensures WellPlaced(cm, |cm.prefilled|) <==> !vtx[0].isNull
    ensures forall layout :: Holds(cm, |cm.prefilled|, layout) ==> Describes(cm, vtx, shortId, layout)
  {
    var short := [];
    for i := 1 to |vtx|
      invariant |short| == i - 1
      invariant forall k :: 0 <= k < i - 1 ==> short[k] == shortId(vtx[k + 1].hash)
    {
      short := short + [shortId(vtx[i].hash)];
    }
    cm := CompactBlock(false, short, [Prefilled(0, vtx[0])]);
    assert Position(cm.prefilled, 0) == -1 && SlotOf(cm.prefilled, 0) == 0;
    assert FitsIn(cm, 0) <==> !vtx[0].isNull;
    forall layout | Holds(cm, |cm.prefilled|, layout) ensures Describes(cm, vtx, shortId, layout) {
      FirstSlotOnly(cm, layout);
    }
  }

  lemma FirstSlotOnly(cm: CompactBlock, layout: Slots)
    requires |cm.prefilled| == 1 && cm.prefilled[0].index == 0 && Holds(cm, 1, layout)
    ensures |Free(layout, |layout|)| == |cm.shortIds|
    ensures forall k :: 0 <= k < |cm.shortIds| ==> Free(layout, |layout|)[k] == k + 1
  {
    assert Position(cm.prefilled, 0) == -1 && SlotOf(cm.prefilled, 0) == 0;
    forall p | 0 < p < |layout| ensures layout[p].None? {
      if IsSlot(cm.prefilled, 1, p) {
        assert false;
      }
    }
    FreeAfterFirst(layout, |layout|);
  }

  lemma {:induction false} FreeAfterFirst(a: Slots, n: nat)
    requires 1 <= n <= |a| && a[0].Some? && forall p :: 0 < p < |a| ==> a[p].None?
    ensures |Free(a, n)| == n - 1 && forall k :: 0 <= k < n - 1 ==> Free(a, n)[k] == k + 1
    decreases n
  {
    if n > 1 {
      FreeAfterFirst(a, n - 1);
    } else {
      assert Free(a, 0) == [];
    }
  }

  /**
    Announce a block, place what the receiver has, request the slots that are left by
    their indexes, fill them with the answer.  A request or an answer that cannot be read
    ends the attempt.  If no short ids collide, the block comes back exactly if it has at
    most 65536 transactions; beyond that the last slot stays empty whatever the receiver
    has, and is requested under another number.
   */
  method Relay(vtx: seq<Tx>, shortId: nat -> nat, pool: seq<Offer>, extra: seq<Offer>, crowded: seq<bool>,
               verdict: CheckResult)
    returns (status: ReadStatus, block: seq<Tx>)
    requires vtx != [] && |crowded| == |vtx| - 1 && NoCollision(pool + extra, vtx, shortId)
    ensures |vtx| > MAX_TXS || vtx[0].isNull ==> status == Invalid
    ensures |vtx| <= 0x1_0000 && !vtx[0].isNull ==>
              && status == (if Mappable(ShortIds(vtx, shortId), crowded) then StatusOf(verdict) else Failed)
              && (Mappable(ShortIds(vtx, shortId), crowded) ==> block == vtx)
    ensures |vtx| > 0x1_0000 && vtx[|vtx| - 1] != vtx[(|vtx| - 1) % 0x1_0000] ==> block != vtx
  {
    var cm := FromBlock(vtx, shortId);
    var partial := new PartiallyDownloadedBlock();
    var r;
    ghost var o;
    block := [];
    r, o := partial.InitData(cm, shortId, pool, extra, crowded);
    if r != Returns(Ok) {
      return r.status, block;
    }
    ghost var slots := partial.txnAvailable;
    if |vtx| <= 0x1_0000 {
      InitAgrees(cm, vtx, o);
      RequestReads(slots);
    }
    var indexes := partial.MissingIndexes();
    var request := RequestRoundTrip(indexes);
    if request == Overflow {
      return Failed, block;
    }
    var missing := SendTransactions(vtx, request.list);
    if missing.None? {
      return Failed, block;
    }
    status, block := partial.FillBlock(missing.value, verdict);
    if |vtx| <= 0x1_0000 {
      FillRebuilds(slots, vtx, missing.value, block);
    } else {
      HighSlotsEmpty(cm, o);
      LastSlotFree(slots);
    }
  }

  /** No id and no prefilled transaction leads to a slot beyond 65536, so these stay empty whatever is offered. */
  lemma HighSlotsEmpty(cm: CompactBlock, o: Outcome)
    requires Initialised(cm, o)
    ensures FilledLow(o.s.slots)
  {
    forall j: nat, p: nat | j < |o.h.offers| && Matches(o.h, j, p) ensures p < 0x1_0000 {
      var i := Occurs(cm.shortIds, |cm.shortIds|, o.h.shortId(o.h.offers[j].hash));
    }
    forall p | 0x1_0000 <= p < |o.s.slots| ensures o.s.slots[p].None? {
      assert SlotSearched(o.s, o.layout, o.h, o.stop, o.end, p);
    }
  }

  /** `SendBlockTransactions` (src/net_processing.cpp:1287-1302): an index out of bounds is not answered. */
  method SendTransactions(vtx: seq<Tx>, indexes: seq<nat>) returns (r: Option<seq<Tx>>)
    ensures r.Some? <==> forall i :: 0 <= i < |indexes| ==> indexes[i] < |vtx|
    ensures r.Some? ==> |r.value| == |indexes| && forall i :: 0 <= i < |indexes| ==> r.value[i] == vtx[indexes[i]]
  {
    var txn := [];
    for i := 0 to |indexes|
      invariant |txn| == i && forall k :: 0 <= k < i ==> indexes[k] < |vtx| && txn[k] == vtx[indexes[k]]
    {
      if indexes[i] >= |vtx| {
        return None;
      }
      txn := txn + [vtx[indexes[i]]];
    }
    r := Some(txn);
  }

  lemma {:induction false} FreeIncreases(a: Slots, n: nat)
    requires n <= |a|
    ensures Increasing(Free(a, n))
    decreases n
  {
    if n > 0 {
      FreeIncreases(a, n - 1);
    }
  }

  /** Up to 65536 slots the indexes of the empty ones are 16-bit numbers in increasing order. */
  lemma RequestReads(a: Slots)
    requires |a| <= 0x1_0000
    ensures Wrapped(Free(a, |a|)) == Free(a, |a|) && Increasing(Free(a, |a|)) && Halfwords(Free(a, |a|))
  {
    var free := Free(a, |a|);
    FreeIncreases(a, |a|);
    forall i | 0 <= i < |free| ensures Wrapped(free)[i] == free[i] <= 0xFFFF {
      assert free[i] < |a|;
      WrapsNot(free[i]);
    }
  }

  lemma WrapsNot(x: nat)
    requires x <= 0xFFFF
    ensures x % 0x1_0000 == x
  {
  }

  /**
    Beyond 65536 slots an offer of the last transaction goes to a wrong slot besides,
    although nothing collides.
   */
  lemma WrongBeyond(cm: CompactBlock, vtx: seq<Tx>, o: Outcome, p: nat)
    requires Initialised(cm, o) && Describes(cm, vtx, o.h.shortId, o.layout) && cm.shortIds != []
    requires |vtx| > 0x1_0000 && p == (|vtx| - 1) % 0x1_0000 && vtx[|vtx| - 1] != vtx[p]
    requires o.h.offers == [Offer(vtx[|vtx| - 1].hash, vtx[|vtx| - 1])]
    ensures !Agrees(o.s.slots, vtx)
  {
    var last := |cm.shortIds| - 1;
    LastSlotFree(o.layout);
    assert Wrapped(Free(o.layout, |o.layout|))[last] == p;
    assert Matches(o.h, 0, p);
    UniqueIsFilled(o, p, 0);
  }

  lemma LastSlotFree(a: Slots)
    requires |a| > 0x1_0000 && FilledLow(a)
    ensures Free(a, |a|) != [] && Free(a, |a|)[|Free(a, |a|)| - 1] == |a| - 1
  {
    assert a[|a| - 1].None?;
  }

  /** A message on which `InitData` does not end: 65536 prefilled transactions and one short id. */
  lemma EndlessMessage(id: nat, tx: Tx)
    requires !tx.isNull
    ensures var cm := CompactBlock(false, [id], seq(0x1_0000, _ => Prefilled(0, tx)));
            Admitted(cm) && cm.shortIds != [] && |cm.prefilled| > 0xFFFF
  {
    var cm := CompactBlock(false, [id], seq(0x1_0000, _ => Prefilled(0, tx)));
    forall i | 0 <= i < |cm.prefilled| ensures FitsIn(cm, i) {
      SideBySide(cm.prefilled, i + 1);
    }
  }

  lemma {:induction false} SideBySide(pre: seq<Prefilled>, n: nat)
    requires n <= |pre| && forall i :: 0 <= i < n ==> pre[i].index == 0
    ensures Position(pre, n) == n - 1
    decreases n
  {
    if n > 0 {
      SideBySide(pre, n - 1);
    }
  }

  // ----- The indexes of a request -----

  datatype Decoded = Indexes(list: seq<nat>) | Overflow

  const WORD64: nat := 0x1_0000_0000_0000_0000

  ghost predicate Increasing(s: seq<nat>) {
    forall i :: 0 < i < |s| ==> s[i - 1] < s[i]
  }

  ghost predicate Halfwords(s: seq<nat>) {
    forall i :: 0 <= i < |s| ==> s[i] <= 0xFFFF
  }

  /** The difference to the index before, as an unsigned 64-bit number. */
  function Difference(s: seq<nat>, i: nat): nat
    requires i < |s|
  {
    (s[i] - (if i == 0 then 0 else s[i - 1] + 1)) % WORD64
  }

  /** Writing a `BlockTransactionsRequest`. */
  method WriteIndexes(indexes: seq<nat>) returns (out: seq<nat>)
    ensures |out| == |indexes| && forall i :: 0 <= i < |out| ==> out[i] == Difference(indexes, i)
  {
    out := [];
    for i := 0 to |indexes|
      invariant |out| == i && forall k :: 0 <= k < i ==> out[k] == Difference(indexes, k)
    {
      out := out + [Difference(indexes, i)];
    }
  }

  /** The index a stream of differences gives at `j`; the running offset is 16 bits wide. */
  ghost function IndexAt(raw: seq<nat>, j: nat): nat
    requires j < |raw|
  {
    raw[j] + if j == 0 then 0 else (IndexAt(raw, j - 1) + 1) % 0x1_0000
  }

  ghost predicate Readable(raw: seq<nat>) {
    forall j :: 0 <= j < |raw| ==> raw[j] <= 0xFFFF && IndexAt(raw, j) <= 0xFFFF
  }

  /** Reading a `BlockTransactionsRequest`. */
  method ReadIndexes(raw: seq<nat>) returns (r: Decoded)
    ensures r.Indexes? <==> Readable(raw)
    ensures r.Indexes? ==> |r.list| == |raw| && forall j :: 0 <= j < |raw| ==> r.list[j] == IndexAt(raw, j)
  {
    for i := 0 to |raw|
      invariant forall k :: 0 <= k < i ==> raw[k] <= 0xFFFF
    {
      if raw[i] > 0xFFFF {
        return Overflow;
      }
    }
    r := AddOffsets(raw);
    if r.Indexes? {
      assert Readable(raw);
    } else {
      ghost var j :| 0 <= j < |raw| && IndexAt(raw, j) > 0xFFFF;
      assert !Readable(raw);
    }
  }

  /** The second loop: the list is rewritten in place with the running offset. */
  method AddOffsets(raw: seq<nat>) returns (r: Decoded)
    ensures r.Indexes? <==> forall j :: 0 <= j < |raw| ==> IndexAt(raw, j) <= 0xFFFF
    ensures r.Indexes? ==> |r.list| == |raw| && forall j :: 0 <= j < |raw| ==> r.list[j] == IndexAt(raw, j)
  {
    var indexes := raw;
    var offset := 0;
    for j := 0 to |indexes|
      invariant |indexes| == |raw| && forall k :: j <= k < |raw| ==> indexes[k] == raw[k]
      invariant forall k :: 0 <= k < j ==> indexes[k] == IndexAt(raw, k) <= 0xFFFF
      invariant offset == if j == 0 then 0 else (IndexAt(raw, j - 1) + 1) % 0x1_0000
    {
      assert IndexAt(raw, j) == indexes[j] + offset;
      if indexes[j] + offset > 0xFFFF {
        return Overflow;
      }
      indexes := indexes[j := indexes[j] + offset];
      offset := (indexes[j] + 1) % 0x1_0000;
    }
    r := Indexes(indexes);
  }

  /** A list of 16-bit indexes, written and read again, survives exactly when it is strictly increasing. */
  method RequestRoundTrip(indexes: seq<nat>) returns (r: Decoded)
    requires Halfwords(indexes)
    ensures r == if Increasing(indexes) then Indexes(indexes) else Overflow
  {
    var raw := WriteIndexes(indexes);
    r := ReadIndexes(raw);
    if Increasing(indexes) {
      forall j | 0 <= j < |raw| ensures IndexAt(raw, j) == indexes[j] && raw[j] <= 0xFFFF {
        ReadsBack(indexes, raw, j);
      }
    } else {
      TooLarge(indexes, raw);
    }
  }

  lemma {:induction false} ReadsBack(indexes: seq<nat>, raw: seq<nat>, j: nat)
    requires Halfwords(indexes) && Increasing(indexes)
    requires j < |raw| == |indexes| && forall i :: 0 <= i < |raw| ==> raw[i] == Difference(indexes, i)
    ensures IndexAt(raw, j) == indexes[j] && raw[j] <= 0xFFFF
    decreases j
  {
    StepUp(indexes, j);
    if j > 0 {
      ReadsBack(indexes, raw, j - 1);
    }
  }

  lemma StepUp(s: seq<nat>, i: nat)
    requires Halfwords(s) && Increasing(s) && i < |s|
    ensures Difference(s, i) == s[i] - (if i == 0 then 0 else s[i - 1] + 1)
    ensures i > 0 ==> (s[i - 1] + 1) % 0x1_0000 == s[i - 1] + 1
  {
    assert i > 0 ==> s[i - 1] < s[i];
  }

  /** A step that does not go up becomes a huge difference. */
  lemma TooLarge(indexes: seq<nat>, raw: seq<nat>)
    requires Halfwords(indexes) && !Increasing(indexes)
    requires |raw| == |indexes| && forall i :: 0 <= i < |raw| ==> raw[i] == Difference(indexes, i)
    ensures !Readable(raw)
  {
    var i :| 0 < i < |indexes| && indexes[i - 1] >= indexes[i];
    assert raw[i] == indexes[i] - (indexes[i - 1] + 1) + WORD64 > 0xFFFF;
  }

  /** An accepted stream is increasing if and only if no index but the last is the largest. */
  lemma ReadableIncreasingIff(raw: seq<nat>, list: seq<nat>)
    requires Readable(raw) && |list| == |raw| && forall j :: 0 <= j < |raw| ==> list[j] == IndexAt(raw, j)
    ensures Increasing(list) <==> forall i :: 0 <= i < |list| - 1 ==> list[i] != 0xFFFF
  {
    forall i | 0 < i < |list| ensures list[i - 1] < list[i] <==> list[i - 1] != 0xFFFF {
      assert list[i] == IndexAt(raw, i) && list[i - 1] == IndexAt(raw, i - 1);
    }
    if Increasing(list) {
      forall i | 0 <= i < |list| - 1 ensures list[i] != 0xFFFF {
        assert list[i + 1 - 1] < list[i + 1];
      }
    }
  }

  /** For instance, after the largest index the 16-bit offset starts again at zero. */
  lemma OffsetWraps()
    ensures Readable([0xFFFF, 0]) && IndexAt([0xFFFF, 0], 0) == 0xFFFF && IndexAt([0xFFFF, 0], 1) == 0
  {
    assert IndexAt([0xFFFF, 0], 0) == 0xFFFF;
  }
}
