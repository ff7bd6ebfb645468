/**
  The cuckoo cache of src/cuckoocache.h: a table of elements updated in place, with a
  garbage flag and an epoch flag per slot.  A slot is live when its garbage flag is
  not set; the cache means the multiset of its live elements with their epochs.

  The eight hash functions are parameters.  The flags are arrays of booleans here;
  the source packs them into bytes.  The size is a power of two, so masking a hash
  with size - 1 is taking it modulo the size.
 */
module CuckooCache {

  import opened Basics
  import opened Numbers

  const HASHES: nat := 8

  /** `invalid()`: no slot has this index. */
  const INVALID := 0xFFFF_FFFF

  // ----- The meaning of a table -----

  /** One slot of the table with its two flags. */
  datatype Cell<E> = Cell(element: E, garbage: bool, recent: bool)

  /** What a slot contributes: nothing when it may be collected. */
  ghost function Content<E>(c: Cell<E>): multiset<(E, bool)> {
    if c.garbage then multiset{} else multiset{(c.element, c.recent)}
  }

  /** All live elements, each with its epoch flag. */
  ghost function Live<E>(cells: seq<Cell<E>>): multiset<(E, bool)> {
    if cells == [] then multiset{}
    else Live(cells[..|cells| - 1]) + Content(cells[|cells| - 1])
  }

  ghost function OneIfRecent<E>(c: Cell<E>): nat {
    if c.recent && !c.garbage then 1 else 0
  }

  /** The number of live elements of the current epoch. */
  ghost function Recent<E>(cells: seq<Cell<E>>): nat {
    if cells == [] then 0
    else Recent(cells[..|cells| - 1]) + OneIfRecent(cells[|cells| - 1])
  }

  lemma Exchange<E>(a: multiset<(E, bool)>, b: multiset<(E, bool)>, x: multiset<(E, bool)>, y: multiset<(E, bool)>,
                    z: multiset<(E, bool)>)
    requires a + x == b + y
    ensures (a + z) + x == (b + z) + y
  {
    assert (a + z) + x == (a + x) + z;
    assert (b + z) + y == (b + y) + z;
  }

  lemma SwapLast<E>(rest: multiset<(E, bool)>, x: multiset<(E, bool)>, y: multiset<(E, bool)>)
    ensures (rest + x) + y == (rest + y) + x
  {
  }

  /** Rewriting one slot exchanges its contribution and nothing else. */
  lemma {:induction false} LiveUpdate<E>(cells: seq<Cell<E>>, i: nat, c: Cell<E>)
    requires i < |cells|
    ensures Live(cells[i := c]) + Content(cells[i]) == Live(cells) + Content(c)
    decreases |cells|
  {
    if i == |cells| - 1 {
      LiveUpdateLast(cells, c);
    } else {
      LiveUpdate(cells[..|cells| - 1], i, c);
      LiveUpdateEarlier(cells, i, c);
    }
  }

  lemma LiveUpdateLast<E>(cells: seq<Cell<E>>, c: Cell<E>)
    requires cells != []
    ensures var n := |cells| - 1;
            Live(cells[n := c]) + Content(cells[n]) == Live(cells) + Content(c)
  {
    var n := |cells| - 1;
    assert cells[n := c][..n] == cells[..n];
    SwapLast(Live(cells[..n]), Content(c), Content(cells[n]));
  }

  lemma LiveUpdateEarlier<E>(cells: seq<Cell<E>>, i: nat, c: Cell<E>)
    requires i < |cells| - 1
    requires var front := cells[..|cells| - 1];
             Live(front[i := c]) + Content(front[i]) == Live(front) + Content(c)
    ensures Live(cells[i := c]) + Content(cells[i]) == Live(cells) + Content(c)
  {
    var n := |cells| - 1;
    assert cells[i := c][..n] == cells[..n][i := c];
    Exchange(Live(cells[..n][i := c]), Live(cells[..n]), Content(cells[i]), Content(c), Content(cells[n]));
  }

  lemma {:induction false} RecentUpdate<E>(cells: seq<Cell<E>>, i: nat, c: Cell<E>)
    requires i < |cells|
    ensures Recent(cells[i := c]) + OneIfRecent(cells[i]) == Recent(cells) + OneIfRecent(c)
    decreases |cells|
  {
    var n := |cells| - 1;
    var cells' := cells[i := c];
    if i == n {
      assert cells'[..n] == cells[..n];
    } else {
      RecentUpdate(cells[..n], i, c);
      assert cells'[..n] == cells[..n][i := c];
    }
  }

  lemma {:induction false} RecentNone<E>(cells: seq<Cell<E>>)
    requires forall i :: 0 <= i < |cells| ==> !cells[i].recent || cells[i].garbage
    ensures Recent(cells) == 0
    decreases |cells|
  {
    if cells != [] {
      RecentNone(cells[..|cells| - 1]);
    }
  }

  lemma {:induction false} LiveNone<E>(cells: seq<Cell<E>>)
    requires forall i :: 0 <= i < |cells| ==> cells[i].garbage
    ensures Live(cells) == multiset{}
    decreases |cells|
  {
    if cells != [] {
      LiveNone(cells[..|cells| - 1]);
    }
  }

  lemma {:induction false} LiveSits<E>(cells: seq<Cell<E>>, x: (E, bool))
    requires x in Live(cells)
    ensures exists i :: 0 <= i < |cells| && !cells[i].garbage && (cells[i].element, cells[i].recent) == x
    decreases |cells|
  {
    var n := |cells| - 1;
    if x in Live(cells[..n]) {
      LiveSits(cells[..n], x);
      var i :| 0 <= i < n && !cells[..n][i].garbage && (cells[..n][i].element, cells[..n][i].recent) == x;
      assert !cells[i].garbage && (cells[i].element, cells[i].recent) == x;
    }
  }

  /** Whatever is in the table, live or not: these are the elements a lookup can find. */
  ghost function Elements<E>(cells: seq<Cell<E>>): set<E> {
    set i | 0 <= i < |cells| :: cells[i].element
  }

  lemma ElementsUpdate<E>(cells: seq<Cell<E>>, i: nat, c: Cell<E>)
    requires i < |cells|
    ensures Elements(cells[i := c]) <= Elements(cells) + {c.element} && cells[i].element in Elements(cells)
  {
    forall e <- Elements(cells[i := c]) ensures e in Elements(cells) + {c.element} {
      var k :| 0 <= k < |cells| && cells[i := c][k].element == e;
      assert k != i ==> cells[k].element == e;
    }
  }

  lemma ElementsAged<E>(cells: seq<Cell<E>>)
    ensures Elements(Aged(cells)) <= Elements(cells)
  {
    forall e <- Elements(Aged(cells)) ensures e in Elements(cells) {
      var k :| 0 <= k < |cells| && Aged(cells)[k].element == e;
      assert cells[k].element == e;
    }
  }

  /** The elements inserted by a run. */
  ghost predicate Inserted<E>(ops: seq<Op<E>>, e: E) {
    InsertOp(e) in ops
  }

  /** How far the current epoch can grow past its nominal size before a scan ages it. */
  function Slack(epochSize: nat): nat {
    Max(1, epochSize / 16)
  }

  /** What became of an insertion. */
  datatype Outcome<E> =
    | Kept(slot: nat)               // a copy was found there and is kept
    | Placed(moved: nat, slot: nat) // a free slot was found there after moving so many others
    | Dropped(lost: (E, bool))      // the search was too deep and its last element is lost

  /** The table in the middle of a search, the element in hand and the slot it came from. */
  datatype Hand<E> = Hand(cells: seq<Cell<E>>, e: E, epoch: bool, last: int)

  /** `k` is the first of these slots that holds `e`. */
  ghost predicate FirstCopy<E>(cells: seq<Cell<E>>, locs: seq<nat>, k: nat, e: E)
    requires forall j :: 0 <= j < |locs| ==> locs[j] < |cells|
  {
    k < |locs| && cells[locs[k]].element == e && forall j :: 0 <= j < k ==> cells[locs[j]].element != e
  }

  /** `k` is the first of these slots that may be collected. */
  ghost predicate FirstFree<E>(cells: seq<Cell<E>>, locs: seq<nat>, k: nat)
    requires forall j :: 0 <= j < |locs| ==> locs[j] < |cells|
  {
    k < |locs| && cells[locs[k]].garbage && forall j :: 0 <= j < k ==> !cells[locs[j]].garbage
  }

  /** The slot after the one last used, in a ring; the second slot when that one is not among them. */
  ghost function After(locs: seq<nat>, last: int): (loc: nat)
    requires |locs| == HASHES
    ensures loc in locs
  {
    if last !in locs then locs[1] else locs[(FirstAt(locs, last) + 1) % HASHES]
  }

  ghost function FirstAt(locs: seq<nat>, last: int): (k: nat)
    requires last in locs
    ensures k < |locs| && locs[k] == last && last !in locs[..k]
  {
    if locs[0] == last then 0 else 1 + FirstAt(locs[1..], last)
  }

  lemma {:induction false} FirstAtIs(locs: seq<nat>, last: int, k: nat)
    requires k < |locs| && locs[k] == last && last !in locs[..k]
    ensures FirstAt(locs, last) == k
  {
    if k > 0 {
      assert locs[..k][0] == locs[0] && locs[1..][..k - 1] == locs[..k][1..];
      FirstAtIs(locs[1..], last, k - 1);
    }
  }

  /** With eight different slots the next one follows in the ring, so what was just put down is not moved back. */
  lemma NextInRing(locs: seq<nat>, k: nat)
    requires |locs| == HASHES && k < 8 && forall i, j :: 0 <= i < j < |locs| ==> locs[i] != locs[j]
    ensures After(locs, locs[k]) == locs[if k == 7 then 0 else k + 1] != locs[k]
  {
    FirstAtIs(locs, locs[k], k);
  }

  datatype Op<E> = InsertOp(e: E) | LookupOp(e: E, erase: bool)

  class Cache<E(==)> {
    const size: nat
    const hash: (nat, E) -> nat
    const epochSize: nat
    const depthLimit: nat
    const table: array<E>
    const collectionFlags: array<bool>
    const epochFlags: array<bool>
    var counter: nat    // epoch_heuristic_counter

    ghost predicate Shape() {
      && size >= 1 && epochSize >= 1 && depthLimit >= 1
      && table.Length == collectionFlags.Length == epochFlags.Length == size
      && collectionFlags != epochFlags
      && (table as object) != collectionFlags && (table as object) != epochFlags
    }

    function Locs(e: E): (locs: seq<nat>)
      requires size >= 1
      ensures |locs| == HASHES
      ensures forall l :: l in locs ==> l < size
      ensures forall j :: 0 <= j < HASHES ==> locs[j] < size
    {
      seq(HASHES, k requires 0 <= k => hash(k, e) % size)
    }

    ghost function Cells(): (cells: seq<Cell<E>>)
      requires Shape()
      reads table, collectionFlags, epochFlags
      ensures |cells| == size
      ensures forall i :: 0 <= i < size ==> cells[i] == Cell(table[i], collectionFlags[i], epochFlags[i])
    {
      seq(size, i requires 0 <= i < size reads table, collectionFlags, epochFlags =>
            Cell(table[i], collectionFlags[i], epochFlags[i]))
    }

    /** Every live element sits at one of its own hash locations. */
    ghost predicate AllAtHome(cells: seq<Cell<E>>)
      requires size >= 1
    {
      forall i :: 0 <= i < |cells| && !cells[i].garbage ==> i in Locs(cells[i].element)
    }

    /** The second conjunct is the bound that the scan and the counter keep together. */
    ghost predicate Valid()
      reads this, table, collectionFlags, epochFlags
    {
      && Shape()
      && AllAtHome(Cells())
      && Recent(Cells()) + counter <= epochSize + Slack(epochSize)
    }

    /** `setup` for a table of 2^depth slots; all slots start out collectable. */
    constructor (depth: nat, zero: E, hash: (nat, E) -> nat)
      requires 1 <= depth < 32
      ensures Valid() && fresh(table) && fresh(collectionFlags) && fresh(epochFlags)
      ensures this.hash == hash && depthLimit == depth && counter == epochSize
      ensures 100 * epochSize <= Max(100, 45 * size % 0x1_0000_0000) < 100 * (epochSize + 1)
      ensures size == Pow(2, depth) && Live(Cells()) == multiset{} && Elements(Cells()) == {zero}
      ensures forall i :: 0 <= i < size ==> Cells()[i] == Cell(zero, true, false)
    {
      var n := Pow(2, depth);
      size := n;
      this.hash := hash;
      depthLimit := depth;
      epochSize := Max(1, (45 * n) % 0x1_0000_0000 / 100);
      counter := Max(1, (45 * n) % 0x1_0000_0000 / 100);
      table := new E[n](_ => zero);
      collectionFlags := new bool[n](_ => true);
      epochFlags := new bool[n](_ => false);
      new;
      RecentNone(Cells());
      LiveNone(Cells());
      assert Cells()[0].element == zero;
    }

    /** Rewrite one slot: the element, `please_keep` or `allow_erase`, and the epoch flag. */
    method SetCell(i: nat, c: Cell<E>)
      requires Shape() && i < size
      modifies table, collectionFlags, epochFlags
      ensures Cells() == old(Cells())[i := c]
    {
      table[i] := c.element;
      collectionFlags[i] := c.garbage;
      epochFlags[i] := c.recent;
    }

    /** `epoch_check`: the cells after it, and the number of inserts until the next scan. */
    method EpochCheck()
      requires Valid()
      modifies this, collectionFlags, epochFlags
      ensures Shape() && AllAtHome(Cells())
      ensures Recent(Cells()) + counter + 1 <= epochSize + Slack(epochSize)
      ensures var scan := old(counter) == 0 && Recent(old(Cells())) >= epochSize;
              Cells() == if scan then Aged(old(Cells())) else old(Cells())
      ensures Elements(Cells()) <= Elements(old(Cells()))
      ensures old(counter) > 0 ==> counter == old(counter) - 1
      ensures old(counter) == 0 ==>
                counter == if Recent(old(Cells())) >= epochSize then epochSize
                           else Max(Slack(epochSize), epochSize - Recent(old(Cells())))
    {
      if counter != 0 {
        counter := counter - 1;
        return;
      }
      ghost var before := Cells();
      var unused := CountRecent();
      assert Cells() == before;
      if unused >= epochSize {
        AgeEpochs();
        RecentNone(Aged(before));
        ElementsAged(before);
        counter := epochSize;
      } else {
        counter := Max(1, Max(epochSize / 16, epochSize - unused));
      }
    }

    method CountRecent() returns (unused: nat)
      requires Shape()
      ensures unused == Recent(Cells())
    {
      unused := 0;
      for i := 0 to size
        invariant unused == Recent(Cells()[..i])
      {
        assert Cells()[..i + 1][..i] == Cells()[..i];
        unused := unused + (if epochFlags[i] && !collectionFlags[i] then 1 else 0);
      }
      assert Cells()[..size] == Cells();
    }

    method AgeEpochs()
      requires Shape()
      modifies collectionFlags, epochFlags
      ensures Cells() == Aged(old(Cells()))
    {
      ghost var before := Cells();
      for i := 0 to size
        invariant forall k :: 0 <= k < i ==> Cells()[k] == AgedCell(before[k])
        invariant forall k :: i <= k < size ==> Cells()[k] == before[k]
      {
        if epochFlags[i] {
          epochFlags[i] := false;
        } else {
          collectionFlags[i] := true;
        }
      }
    }

    /** The first of the given slots that may be collected, or HASHES when none may. */
    method FindFree(locs: seq<nat>) returns (k: nat)
      requires Shape() && |locs| == HASHES && forall j :: 0 <= j < HASHES ==> locs[j] < size
      ensures k <= HASHES
      ensures k < HASHES ==> FirstFree(Cells(), locs, k)
      ensures k == HASHES ==> forall l :: l in locs ==> l < size && !collectionFlags[l]
    {
      k := 0;
      while k < HASHES && !collectionFlags[locs[k]]
        invariant k <= HASHES
        invariant forall j :: 0 <= j < k ==> !collectionFlags[locs[j]]
      {
        k := k + 1;
      }
    }

    /** The first of the given slots that holds `e`, or HASHES when none does. */
    method FindCopy(locs: seq<nat>, e: E) returns (k: nat)
      requires Shape() && |locs| == HASHES && forall j :: 0 <= j < HASHES ==> locs[j] < size
      ensures k <= HASHES
      ensures k < HASHES ==> FirstCopy(Cells(), locs, k, e)
      ensures k == HASHES ==> forall l :: l in locs ==> l < size && Cells()[l].element != e
    {
      k := 0;
      while k < HASHES && table[locs[k]] != e
        invariant k <= HASHES
        invariant forall j :: 0 <= j < k ==> table[locs[j]] != e
      {
        k := k + 1;
      }
    }

    /** Line 406: the slot after the last one looked at; not found counts as position 8. */
    static method NextSlot(locs: seq<nat>, lastLoc: int) returns (k: nat)
      requires |locs| == HASHES
      ensures k < HASHES
      ensures locs[k] == After(locs, lastLoc)
    {
      var j := 0;
      while j < HASHES && locs[j] != lastLoc
        invariant j <= HASHES
        invariant lastLoc !in locs[..j]
      {
        j := j + 1;
      }
      assert j == HASHES ==> locs[..j] == locs;
      if j < HASHES {
        FirstAtIs(locs, lastLoc, j);
      }
      k := (1 + j) % HASHES;
    }

    /**
      `insert`.  `start` is the table after its epoch check.  Against that table either
      a copy is kept, or the element is added and nothing is lost, or it is added and
      exactly one element with its epoch flag, perhaps the new one, is lost.

      The chain of the elements that are moved is fixed by `start` and `e0`.  The
      insertion succeeds exactly if one of the first `depthLimit` of them has a slot that
      may be collected; the first that has one takes the first such slot.  Otherwise the
      element moved last is the one lost.
     */
    method Insert(e0: E) returns (ghost start: seq<Cell<E>>, ghost outcome: Outcome<E>)
      requires Valid()
      modifies this, table, collectionFlags, epochFlags
      ensures Valid()
      ensures start == if old(counter) == 0 && Recent(old(Cells())) >= epochSize then Aged(old(Cells()))
                       else old(Cells())
      ensures outcome.Kept? <==> exists l :: l in Locs(e0) && start[l].element == e0
      ensures outcome.Kept? ==> KeptAt(start, e0, outcome.slot, Cells())
      ensures !outcome.Kept? ==> Searched(start, e0, outcome, Cells())
      ensures !outcome.Kept? ==> (outcome.Placed? <==> exists i :: 0 <= i < depthLimit && Opens(start, e0, i))
      ensures !outcome.Kept? && (exists l :: l in Locs(e0) && start[l].garbage) ==> outcome.Placed?
      ensures Elements(Cells()) <= Elements(old(Cells())) + {e0}
    {
      EpochCheck();
      start := Cells();
      var locs := Locs(e0);
      var copy := FindCopy(locs, e0);
      assert Cells() == start;
      if copy < HASHES {
        assert locs[copy] in Locs(e0) && FirstCopy(start, Locs(e0), copy, e0);
        outcome := Kept(locs[copy]);
        KeepAt(locs[copy], e0);
      } else {
        outcome := Relocate(e0);
        SearchDecided(start, e0, outcome, Cells());
      }
    }

    /** The first of the element's slots with a copy is live again and of the current epoch; nothing else changed. */
    ghost predicate KeptAt(start: seq<Cell<E>>, e0: E, slot: nat, cells: seq<Cell<E>>)
      requires size >= 1 && |start| == size
    {
      && (exists k: nat :: FirstCopy(start, Locs(e0), k, e0) && slot == Locs(e0)[k])
      && slot < size && cells == start[slot := Cell(e0, false, true)]
    }

    /** What a search that found no copy leaves behind. */
    ghost predicate Searched(start: seq<Cell<E>>, e0: E, outcome: Outcome<E>, cells: seq<Cell<E>>)
      requires size >= 1 && |start| == size
    {
      match outcome
      case Kept(_) => false
      case Placed(moved, slot) =>
        && Live(cells) == Live(start) + multiset{(e0, true)}
        && PlacedAfter(start, e0, moved, slot, cells)
      case Dropped(lost) =>
        && Live(cells) + multiset{lost} == Live(start) + multiset{(e0, true)}
        && DroppedAfter(start, e0, lost, cells)
    }

    lemma SearchDecided(start: seq<Cell<E>>, e0: E, outcome: Outcome<E>, cells: seq<Cell<E>>)
      requires size >= 1 && |start| == size && depthLimit >= 1 && Searched(start, e0, outcome, cells)
      ensures outcome.Placed? <==> exists i :: 0 <= i < depthLimit && Opens(start, e0, i)
      ensures (exists l :: l in Locs(e0) && start[l].garbage) ==> outcome.Placed?
    {
      assert Chain(start, e0, 0).e == e0;
      if outcome.Placed? {
        var e := Chain(start, e0, outcome.moved).e;
        var k: nat :| FirstFree(start, Locs(e), k) && outcome.slot == Locs(e)[k];
        assert Locs(e)[k] in Locs(e);
        assert Opens(start, e0, outcome.moved);
      } else {
        assert !Opens(start, e0, 0);
      }
    }

    /** Lines 406-414: the element in hand trades places with the one in the next of its slots. */
    ghost function Swap(h: Hand<E>): (h': Hand<E>)
      requires size >= 1 && |h.cells| == size
      ensures |h'.cells| == size && forall l :: 0 <= l < size ==> h'.cells[l].garbage == h.cells[l].garbage
    {
      var loc := After(Locs(h.e), h.last);
      Hand(h.cells[loc := h.cells[loc].(element := h.e, recent := h.epoch)], h.cells[loc].element, h.cells[loc].recent,
           loc)
    }

    /** The search after `i` such moves. */
    ghost function Chain(start: seq<Cell<E>>, e0: E, i: nat): (h: Hand<E>)
      requires size >= 1 && |start| == size
      ensures |h.cells| == size && forall l :: 0 <= l < size ==> h.cells[l].garbage == start[l].garbage
    {
      if i == 0 then Hand(start, e0, true, INVALID) else Swap(Chain(start, e0, i - 1))
    }

    /** The new element itself goes to its second slot, and what was there is moved next. */
    lemma FirstMove(start: seq<Cell<E>>, e0: E)
      requires 1 <= size <= INVALID && |start| == size
      ensures var second := hash(1, e0) % size;
              var h := Chain(start, e0, 1);
              && h == Hand(h.cells, start[second].element, start[second].recent, second)
              && h.cells == start[second := start[second].(element := e0, recent := true)]
    {
      assert Chain(start, e0, 0) == Hand(start, e0, true, INVALID);
      assert Locs(e0)[1] == hash(1, e0) % size;
    }

    /** The element in hand after `i` moves has a slot that may be collected. */
    ghost predicate Opens(start: seq<Cell<E>>, e0: E, i: nat)
      requires size >= 1 && |start| == size
    {
      exists l :: l in Locs(Chain(start, e0, i).e) && start[l].garbage
    }

    /** The `moved`-th element of the chain is the first with such a slot, and took the first of its slots. */
    ghost predicate PlacedAfter(start: seq<Cell<E>>, e0: E, moved: nat, slot: nat, cells: seq<Cell<E>>)
      requires size >= 1 && |start| == size
    {
      var h := Chain(start, e0, moved);
      && moved < depthLimit && (forall j :: 0 <= j < moved ==> !Opens(start, e0, j))
      && (exists k: nat :: FirstFree(start, Locs(h.e), k) && slot == Locs(h.e)[k])
      && slot < size && cells == h.cells[slot := Cell(h.e, false, h.epoch)]
    }

    ghost predicate DroppedAfter(start: seq<Cell<E>>, e0: E, lost: (E, bool), cells: seq<Cell<E>>)
      requires size >= 1 && |start| == size
    {
      var h := Chain(start, e0, depthLimit);
      && (forall j :: 0 <= j < depthLimit ==> !Opens(start, e0, j))
      && lost == (h.e, h.epoch) && cells == h.cells
    }

    /** Lines 378-379: the copy in this slot is live again and of the current epoch. */
    method KeepAt(loc: nat, e: E)
      requires Shape() && AllAtHome(Cells()) && loc in Locs(e) && table[loc] == e
      modifies table, collectionFlags, epochFlags
      ensures Cells() == old(Cells())[loc := Cell(e, false, true)]
      ensures AllAtHome(Cells()) && Recent(Cells()) <= Recent(old(Cells())) + 1
      ensures Elements(Cells()) <= Elements(old(Cells())) + {e}
    {
      ElementsUpdate(Cells(), loc, Cell(e, false, true));
      RecentUpdate(Cells(), loc, Cell(e, false, true));
      HomeAfter(Cells(), loc, e, true);
      SetCell(loc, Cell(e, false, true));
    }

    /** Lines 382-415: find a slot, moving other elements out of the way. */
    method Relocate(e0: E) returns (ghost outcome: Outcome<E>)
      requires Shape() && AllAtHome(Cells())
      modifies table, collectionFlags, epochFlags
      ensures AllAtHome(Cells())
      ensures Recent(Cells()) <= Recent(old(Cells())) + 1
      ensures Searched(old(Cells()), e0, outcome, Cells())
      ensures Elements(Cells()) <= Elements(old(Cells())) + {e0}
    {
      ghost var start := Cells();
      var e, epoch := e0, true;
      var lastLoc: int := INVALID;
      for depth := 0 to depthLimit
        invariant AllAtHome(Cells())
        invariant InSearch(start, e0, depth, Hand(Cells(), e, epoch, lastLoc))
        invariant Balanced(start, (e0, true), Cells(), (e, epoch))
        invariant Elements(Cells()) + {e} <= Elements(start) + {e0}
      {
        ghost var h := Hand(Cells(), e, epoch, lastLoc);
        var placed;
        ghost var slot;
        placed, e, epoch, lastLoc, slot := PlaceOrSwap(e, epoch, lastLoc);
        BalancedNext(start, (e0, true), h.cells, (h.e, h.epoch), Cells(), (e, epoch), placed);
        if placed {
          SearchEnds(start, e0, depth, h, slot, Cells());
          return Placed(depth, slot);
        }
        SearchGoesOn(start, e0, depth, h, Hand(Cells(), e, epoch, lastLoc));
      }
      outcome := Dropped((e, epoch));
    }

    /** The search has moved `depth` elements, none of which had a slot that may be collected. */
    ghost predicate InSearch(start: seq<Cell<E>>, e0: E, depth: nat, h: Hand<E>)
      requires size >= 1 && |start| == size
    {
      h == Chain(start, e0, depth) && forall j :: 0 <= j < depth ==> !Opens(start, e0, j)
    }

    ghost predicate TookFree(cells: seq<Cell<E>>, e: E, epoch: bool, slot: nat, cells': seq<Cell<E>>)
      requires size >= 1 && |cells| == size
    {
      && (exists k: nat :: FirstFree(cells, Locs(e), k) && slot == Locs(e)[k])
      && slot < size && cells' == cells[slot := Cell(e, false, epoch)]
    }

    lemma SearchEnds(start: seq<Cell<E>>, e0: E, moved: nat, h: Hand<E>, slot: nat, cells': seq<Cell<E>>)
      requires size >= 1 && |start| == size && moved < depthLimit && InSearch(start, e0, moved, h)
      requires TookFree(h.cells, h.e, h.epoch, slot, cells')
      ensures PlacedAfter(start, e0, moved, slot, cells')
    {
      var k: nat :| FirstFree(h.cells, Locs(h.e), k) && slot == Locs(h.e)[k];
      assert FirstFree(start, Locs(h.e), k);
    }

    lemma SearchGoesOn(start: seq<Cell<E>>, e0: E, depth: nat, h: Hand<E>, h': Hand<E>)
      requires size >= 1 && |start| == size && InSearch(start, e0, depth, h) && h' == Swap(h)
      requires forall l :: l in Locs(h.e) ==> !h.cells[l].garbage
      ensures InSearch(start, e0, depth + 1, h')
    {
      assert !Opens(start, e0, depth);
    }

    /** One round of the search: the element in hand goes to a free slot, or trades places. */
    method PlaceOrSwap(e: E, epoch: bool, last: int)
      returns (placed: bool, e': E, epoch': bool, lastLoc: int, ghost slot: nat)
      requires Shape() && AllAtHome(Cells())
      modifies table, collectionFlags, epochFlags
      ensures AllAtHome(Cells())
      ensures placed ==> TookFree(old(Cells()), e, epoch, slot, Cells())
      ensures !placed ==> forall l :: l in Locs(e) ==> !old(Cells())[l].garbage
      ensures !placed ==> Hand(Cells(), e', epoch', lastLoc) == Swap(Hand(old(Cells()), e, epoch, last))
      ensures placed ==> Live(Cells()) == Live(old(Cells())) + multiset{(e, epoch)}
      ensures placed ==> Recent(Cells()) == Recent(old(Cells())) + (if epoch then 1 else 0)
      ensures !placed ==> Balanced(old(Cells()), (e, epoch), Cells(), (e', epoch'))
      ensures Elements(Cells()) + {e'} <= Elements(old(Cells())) + {e}
    {
      ghost var cells := Cells();
      var locs := Locs(e);
      var free := FindFree(locs);
      assert Cells() == cells;
      if free < HASHES {
        assert FirstFree(cells, Locs(e), free) && locs[free] in Locs(e);
        PlaceAt(locs[free], e, epoch);
        return true, e, epoch, last, locs[free];
      }
      assert forall l :: l in Locs(e) ==> !cells[l].garbage;
      var k := NextSlot(locs, last);
      assert Cells() == cells;
      lastLoc := locs[k];
      e', epoch' := TradeAt(lastLoc, e, epoch);
      placed, slot := false, lastLoc;
    }

    method PlaceAt(loc: nat, e: E, epoch: bool)
      requires Shape() && AllAtHome(Cells()) && loc in Locs(e) && collectionFlags[loc]
      modifies table, collectionFlags, epochFlags
      ensures AllAtHome(Cells()) && Cells() == old(Cells())[loc := Cell(e, false, epoch)]
      ensures Live(Cells()) == Live(old(Cells())) + multiset{(e, epoch)}
      ensures Recent(Cells()) == Recent(old(Cells())) + (if epoch then 1 else 0)
      ensures Elements(Cells()) <= Elements(old(Cells())) + {e}
    {
      ElementsUpdate(Cells(), loc, Cell(e, false, epoch));
      HomeAfter(Cells(), loc, e, epoch);
      Place(Cells(), loc, e, epoch);
      SetCell(loc, Cell(e, false, epoch));
    }

    method TradeAt(loc: nat, e: E, epoch: bool) returns (e': E, epoch': bool)
      requires Shape() && AllAtHome(Cells()) && loc in Locs(e) && !collectionFlags[loc]
      modifies table, collectionFlags, epochFlags
      ensures AllAtHome(Cells()) && Cells() == old(Cells())[loc := Cell(e, false, epoch)]
      ensures e' == old(Cells())[loc].element && epoch' == old(Cells())[loc].recent
      ensures Balanced(old(Cells()), (e, epoch), Cells(), (e', epoch'))
      ensures Elements(Cells()) + {e'} <= Elements(old(Cells())) + {e}
    {
      ElementsUpdate(Cells(), loc, Cell(e, false, epoch));
      HomeAfter(Cells(), loc, e, epoch);
      Displace(Cells(), loc, e, epoch);
      e', epoch' := SwapCell(loc, e, epoch);
    }

    /** Table and hand together hold the same elements with the same epochs. */
    ghost predicate Balanced(a: seq<Cell<E>>, x: (E, bool), b: seq<Cell<E>>, y: (E, bool)) {
      && Live(a) + multiset{x} == Live(b) + multiset{y}
      && Recent(a) + (if x.1 then 1 else 0) == Recent(b) + (if y.1 then 1 else 0)
    }

    lemma BalancedNext(a: seq<Cell<E>>, x: (E, bool), b: seq<Cell<E>>, y: (E, bool), c: seq<Cell<E>>, z: (E, bool),
                       placed: bool)
      requires Balanced(a, x, b, y)
      requires placed ==> Live(c) == Live(b) + multiset{y} && Recent(c) == Recent(b) + (if y.1 then 1 else 0)
      requires !placed ==> Balanced(b, y, c, z)
      ensures !placed ==> Balanced(a, x, c, z)
      ensures placed ==> Live(c) == Live(a) + multiset{x} && Recent(c) <= Recent(a) + 1
    {
    }

    /** Lines 407-411: exchange the element in hand with the one in a live slot. */
    method SwapCell(loc: nat, e: E, epoch: bool) returns (evicted: E, evictedEpoch: bool)
      requires Shape() && loc < size && !collectionFlags[loc]
      modifies table, collectionFlags, epochFlags
      ensures Cells() == old(Cells())[loc := Cell(e, false, epoch)]
      ensures evicted == old(Cells())[loc].element && evictedEpoch == old(Cells())[loc].recent
    {
      evicted, evictedEpoch := table[loc], epochFlags[loc];
      SetCell(loc, Cell(e, false, epoch));
    }

    lemma HomeAfter(cells: seq<Cell<E>>, loc: nat, e: E, epoch: bool)
      requires size >= 1 && AllAtHome(cells) && loc < |cells| && loc in Locs(e)
      ensures AllAtHome(cells[loc := Cell(e, false, epoch)])
    {
    }

    lemma Place(cells: seq<Cell<E>>, loc: nat, e: E, epoch: bool)
      requires loc < |cells| && cells[loc].garbage
      ensures Live(cells[loc := Cell(e, false, epoch)]) == Live(cells) + multiset{(e, epoch)}
      ensures Recent(cells[loc := Cell(e, false, epoch)]) == Recent(cells) + (if epoch then 1 else 0)
    {
      LiveUpdate(cells, loc, Cell(e, false, epoch));
      RecentUpdate(cells, loc, Cell(e, false, epoch));
    }

    /** A swap with a live slot. */
    lemma Displace(cells: seq<Cell<E>>, loc: nat, e: E, epoch: bool)
      requires loc < |cells| && !cells[loc].garbage
      ensures Balanced(cells, (e, epoch), cells[loc := Cell(e, false, epoch)], (cells[loc].element, cells[loc].recent))
    {
      LiveUpdate(cells, loc, Cell(e, false, epoch));
      RecentUpdate(cells, loc, Cell(e, false, epoch));
    }

    /**
      `contains`.  A live element is always found; an erasing lookup marks the slot it
      found and leaves every element where it is.
     */
    method Contains(e: E, erase: bool) returns (found: bool)
      requires Valid()
      modifies collectionFlags
      ensures Valid()
      ensures found <==> exists l :: l in Locs(e) && table[l] == e
      ensures found <==> exists k :: 0 <= k < 8 && table[hash(k, e) % size] == e
      ensures (e, true) in old(Live(Cells())) || (e, false) in old(Live(Cells())) ==> found
      ensures found ==> e in Elements(old(Cells()))
      ensures Elements(Cells()) <= Elements(old(Cells()))
      ensures !(found && erase) ==> Cells() == old(Cells())
      ensures found && erase ==>
                exists k: nat :: FirstCopy(old(Cells()), Locs(e), k, e)
                  && Cells() == old(Cells())[Locs(e)[k] := old(Cells())[Locs(e)[k]].(garbage := true)]
    {
      var locs := Locs(e);
      LiveIsFound(Cells(), e);
      WhereFound(Cells(), e);
      ghost var cells := Cells();
      var k := FindCopy(locs, e);
      assert Cells() == cells;
      found := k < HASHES;
      if found {
        assert locs[k] in Locs(e) && cells[locs[k]].element == e;
        if erase {
          EraseAt(locs[k]);
        }
      }
    }

    /** `allow_erase`: the slot may be collected. */
    method EraseAt(loc: nat)
      requires Valid() && loc < size
      modifies collectionFlags
      ensures Valid() && Cells() == old(Cells())[loc := old(Cells())[loc].(garbage := true)]
      ensures Elements(Cells()) <= Elements(old(Cells()))
    {
      ghost var cells := Cells();
      ElementsUpdate(cells, loc, cells[loc].(garbage := true));
      RecentUpdate(cells, loc, cells[loc].(garbage := true));
      collectionFlags[loc] := true;
      assert Cells() == cells[loc := cells[loc].(garbage := true)];
    }

    lemma WhereFound(cells: seq<Cell<E>>, e: E)
      requires size >= 1 && |cells| == size
      ensures (exists l :: l in Locs(e) && cells[l].element == e)
                <==> (exists k :: 0 <= k < 8 && cells[hash(k, e) % size].element == e)
    {
      forall l | l in Locs(e) ensures exists k :: 0 <= k < 8 && hash(k, e) % size == l {
        var k :| 0 <= k < HASHES && Locs(e)[k] == l;
        assert hash(k, e) % size == l;
      }
      forall k | 0 <= k < 8 ensures hash(k, e) % size in Locs(e) {
        assert Locs(e)[k] == hash(k, e) % size;
      }
    }

    lemma LiveIsFound(cells: seq<Cell<E>>, e: E)
      requires size >= 1 && |cells| == size && AllAtHome(cells)
      ensures (e, true) in Live(cells) || (e, false) in Live(cells) ==>
                exists l :: l in Locs(e) && cells[l].element == e
    {
      forall recent: bool | (e, recent) in Live(cells)
        ensures exists l :: l in Locs(e) && cells[l].element == e
      {
        LiveSits(cells, (e, recent));
      }
    }

    /**
      An erasing lookup after an insertion finds the element unless the insertion dropped it
      again, and, for the sake of reorganisations, what it erased is still found.
     */
    method InsertEraseFind(e: E) returns (first: bool, second: bool, ghost outcome: Outcome<E>)
      requires Valid()
      modifies this, table, collectionFlags, epochFlags
      ensures Valid()
      ensures outcome != Dropped((e, true)) ==> first
      ensures first <==> second
    {
      ghost var start;
      start, outcome := Insert(e);
      ghost var cells := Cells();
      first := Contains(e, true);
      ghost var after := Cells();
      assert forall l :: 0 <= l < size ==> after[l].element == cells[l].element;
      second := Contains(e, false);
      assert outcome.Dropped? && outcome != Dropped((e, true)) ==> (e, true) in Live(cells) + multiset{outcome.lost};
    }

    /** One insert or lookup. */
    method Apply(op: Op<E>) returns (hit: bool)
      requires Valid()
      modifies this, table, collectionFlags, epochFlags
      ensures Valid()
      ensures hit ==> op.LookupOp? && op.e in old(Elements(Cells()))
      ensures Elements(Cells()) <= old(Elements(Cells())) + (if op.InsertOp? then {op.e} else {})
    {
      match op
      case InsertOp(e) =>
        ghost var start, outcome := Insert(e);
        hit := false;
      case LookupOp(e, erase) =>
        hit := Contains(e, erase);
    }

    /**
      Any run of inserts and lookups keeps every live element findable and the epoch
      bounded, and a lookup finds nothing but what was there or was inserted before it.
     */
    method Run(ops: seq<Op<E>>) returns (found: seq<bool>)
      requires Valid()
      modifies this, table, collectionFlags, epochFlags
      ensures Valid()
      ensures Recent(Cells()) <= epochSize + Max(1, epochSize / 16)
      ensures forall e, recent :: (e, recent) in Live(Cells()) ==> exists l :: l in Locs(e) && table[l] == e
      ensures |found| == |ops|
      ensures forall i :: 0 <= i < |ops| && found[i] ==>
                ops[i].LookupOp? && (ops[i].e in old(Elements(Cells())) || Inserted(ops[..i], ops[i].e))
    {
      found := [];
      ghost var before := Elements(Cells());
      for i := 0 to |ops|
        invariant Valid() && |found| == i
        invariant forall e <- Elements(Cells()) :: e in before || Inserted(ops[..i], e)
        invariant forall k :: 0 <= k < i && found[k] ==>
                    ops[k].LookupOp? && (ops[k].e in before || Inserted(ops[..k], ops[k].e))
      {
        assert ops[..i + 1] == ops[..i] + [ops[i]];
        var hit := Apply(ops[i]);
        found := found + [hit];
      }
      forall e, recent | (e, recent) in Live(Cells())
        ensures exists l :: l in Locs(e) && table[l] == e
      {
        LiveIsFound(Cells(), e);
      }
    }

    /**
      From `setup` on, only inserted elements are found, and the one element that fills the
      new table, which is found in it although nothing was inserted.
     */
    static method FromSetup(depth: nat, zero: E, hash: (nat, E) -> nat, ops: seq<Op<E>>)
      returns (first: bool, found: seq<bool>)
      requires 1 <= depth < 32
      ensures first && |found| == |ops|
      ensures forall i :: 0 <= i < |ops| && found[i] ==>
                ops[i].LookupOp? && (ops[i].e == zero || Inserted(ops[..i], ops[i].e))
    {
      var cache := new Cache(depth, zero, hash);
      assert cache.Locs(zero)[0] in cache.Locs(zero);
      assert cache.Cells()[cache.Locs(zero)[0]].element in Elements(cache.Cells());
      first := cache.Contains(zero, false);
      found := cache.Run(ops);
    }
  }

  /** A new epoch: the current one becomes the old one, and the old one becomes garbage. */
  function AgedCell<E>(c: Cell<E>): Cell<E> {
    if c.recent then c.(recent := false) else c.(garbage := true)
  }

  function Aged<E>(cells: seq<Cell<E>>): (aged: seq<Cell<E>>)
    ensures |aged| == |cells|
    ensures forall i :: 0 <= i < |cells| ==> aged[i] == AgedCell(cells[i])
  {
    seq(|cells|, i requires 0 <= i < |cells| => AgedCell(cells[i]))
  }

  /** Ageing keeps exactly the current epoch, as the old one. */
  lemma {:induction false} AgedLive<E>(cells: seq<Cell<E>>, e: E)
    ensures Live(Aged(cells))[(e, true)] == 0
    ensures Live(Aged(cells))[(e, false)] == Live(cells)[(e, true)]
    decreases |cells|
  {
    if cells != [] {
      var n := |cells| - 1;
      AgedLive(cells[..n], e);
      assert Aged(cells)[..n] == Aged(cells[..n]);
      AgedContent(cells[n], e);
    }
  }

  lemma AgedContent<E>(c: Cell<E>, e: E)
    ensures Content(AgedCell(c))[(e, true)] == 0
    ensures Content(AgedCell(c))[(e, false)] == Content(c)[(e, true)]
  {
  }
}
