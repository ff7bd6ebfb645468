/**
  The layered cache of unspent transaction outputs (src/coins.h, src/coins.cpp).

  A stack of write-back caches sits on a database.  Each cache entry carries two
  flags: DIRTY (it may differ from the view below) and FRESH (the view below has
  no unspent coin there).  The module gives every view a plain map of unspent
  coins as its meaning and proves that no sequence of operations on the stack can
  be told apart from the same operations on that one map.
 */
module Coins {

  import opened Basics

  // ----- Coins, outpoints and cache entries -----

  const OP_RETURN: bv8 := 0x6a
  const MAX_SCRIPT_SIZE := 10000

  type Script = seq<bv8>

  datatype OutPoint = OutPoint(hash: nat, n: nat)

  datatype Coin = Coin(nValue: int, scriptPubKey: Script, fCoinBase: bool, nHeight: nat) {
    predicate IsSpent() {
      nValue == -1
    }

    predicate IsUnspendable() {
      (|scriptPubKey| > 0 && scriptPubKey[0] == OP_RETURN) || |scriptPubKey| > MAX_SCRIPT_SIZE
    }
  }

  /** What `Coin()` constructs and `Coin::Clear` leaves behind. */
  const EMPTY_COIN := Coin(-1, [], false, 0)

  datatype Entry = Entry(coin: Coin, isDirty: bool, isFresh: bool)

  type Cache = map<OutPoint, Entry>

  /** The meaning of a view: its unspent coins. */
  type Utxos = map<OutPoint, Coin>

  // ----- The meaning of one cache on top of a view -----

  /**
    The unspent coins that the cache itself holds; `Unspent` gives the comprehension a
    fixed value at the keys it leaves out.
   */
  ghost function Live(cache: Cache): Utxos {
    map o | o in cache && !cache[o].coin.IsSpent() :: Unspent(cache[o].coin)
  }

  /** The coin itself, or the empty coin in place of a spent one. */
  function Unspent(coin: Coin): Coin {
    if coin.IsSpent() then EMPTY_COIN else coin
  }

  /** The coins seen through a cache laid over the view `base`. */
  ghost function Overlay(cache: Cache, base: Utxos): Utxos {
    (base - cache.Keys) + Live(cache)
  }

  ghost predicate AllUnspent(view: Utxos) {
    forall o :: o in view ==> !view[o].IsSpent()
  }

  /** What the two flags promise about the view below (src/coins.h:116-124). */
  ghost predicate FlagsHonest(cache: Cache, base: Utxos) {
    forall o :: o in cache ==>
      && (cache[o].isFresh ==> o !in base)
      && (!cache[o].isDirty ==> SameCoin(cache[o].coin, base, o))
  }

  /** The coin agrees with what the view says at `o`; spent and absent are the same. */
  ghost predicate SameCoin(coin: Coin, view: Utxos, o: OutPoint) {
    if coin.IsSpent() then o !in view else o in view && view[o] == coin
  }

  /** A view with the coin at `o` set to `coin`, or removed when `coin` is spent. */
  ghost function Put(view: Utxos, o: OutPoint, coin: Coin): Utxos {
    if coin.IsSpent() then view - {o} else view[o := coin]
  }

  lemma OverlayPut(cache: Cache, base: Utxos, o: OutPoint, e: Entry)
    ensures Overlay(cache[o := e], base) == Put(Overlay(cache, base), o, e.coin)
  {
  }

  lemma OverlayEmpty(base: Utxos)
    ensures Overlay(map[], base) == base
  {
  }

  lemma OverlayErase(cache: Cache, base: Utxos, o: OutPoint)
    requires o !in base
    ensures Overlay(cache - {o}, base) == Overlay(cache, base) - {o}
  {
  }

  // ----- One entry written from a child cache to its parent -----

  datatype Written = Written(cache: Cache) | FreshMisapplied

  /** The body of the loop in `CCoinsViewCache::BatchWrite` for the child entry `e` at `o`. */
  function WriteEntry(us: Cache, o: OutPoint, e: Entry): Written {
    if !e.isDirty then
      Written(us)
    else if o !in us then
      if e.isFresh && e.coin.IsSpent() then Written(us)
      else Written(us[o := Entry(e.coin, true, e.isFresh)])
    else if e.isFresh && !us[o].coin.IsSpent() then
      FreshMisapplied
    else if us[o].isFresh && e.coin.IsSpent() then
      Written(us - {o})
    else
      Written(us[o := Entry(e.coin, true, us[o].isFresh)])
  }

  /** The same for the database, `CCoinsViewDB::BatchWrite`. */
  function StoreEntry(store: Utxos, o: OutPoint, e: Entry): Utxos {
    if !e.isDirty then store
    else if e.coin.IsSpent() then store - {o}
    else store[o := e.coin]
  }

  /** Writing one child entry sets one coin of the parent's view and keeps its flags honest. */
  lemma WriteEntryPuts(us: Cache, base: Utxos, o: OutPoint, e: Entry)
    requires FlagsHonest(us, base)
    requires e.isFresh ==> o !in Overlay(us, base)
    ensures var w := WriteEntry(us, o, e);
            && w.Written?
            && FlagsHonest(w.cache, base)
            && Overlay(w.cache, base) == StoreEntry(Overlay(us, base), o, e)
  {
    if e.isDirty {
      if o !in us {
        if e.isFresh && e.coin.IsSpent() {
          assert o !in Overlay(us, base);
        } else {
          OverlayPut(us, base, o, Entry(e.coin, true, e.isFresh));
        }
      } else if us[o].isFresh && e.coin.IsSpent() {
        OverlayErase(us, base, o);
      } else {
        OverlayPut(us, base, o, Entry(e.coin, true, us[o].isFresh));
      }
    }
  }

  lemma StoreEntryHonest(child: Cache, store: Utxos, o: OutPoint)
    requires AllUnspent(store) && FlagsHonest(child, store) && o in child
    ensures var store' := StoreEntry(store, o, child[o]); AllUnspent(store') && FlagsHonest(child - {o}, store')
  {
  }

  lemma StoreEntryShows(child: Cache, store: Utxos, o: OutPoint)
    requires AllUnspent(store) && FlagsHonest(child, store) && o in child
    ensures Overlay(child - {o}, StoreEntry(store, o, child[o])) == Overlay(child, store)
  {
  }

  /** Moving one entry from a child cache into the view below it changes nothing seen from above. */
  lemma StoreEntryMovesOneEntry(child: Cache, store: Utxos, o: OutPoint)
    requires AllUnspent(store)
    requires FlagsHonest(child, store)
    requires o in child
    ensures var store' := StoreEntry(store, o, child[o]);
            && AllUnspent(store')
            && FlagsHonest(child - {o}, store')
            && Overlay(child - {o}, store') == Overlay(child, store)
  {
    StoreEntryHonest(child, store, o);
    StoreEntryShows(child, store, o);
  }

  /**
    The same when the view below is itself a cache: the flags of both caches stay
    honest (the parent's towards the grandparent), and the "FRESH flag misapplied"
    throw is never reached.
   */
  lemma WriteEntryMovesOneEntry(child: Cache, us: Cache, base: Utxos, o: OutPoint)
    requires AllUnspent(base)
    requires FlagsHonest(us, base)
    requires FlagsHonest(child, Overlay(us, base))
    requires o in child
    ensures var w := WriteEntry(us, o, child[o]);
            && w.Written?
            && FlagsHonest(w.cache, base)
            && FlagsHonest(child - {o}, Overlay(w.cache, base))
            && Overlay(child - {o}, Overlay(w.cache, base)) == Overlay(child, Overlay(us, base))
  {
    WriteEntryPuts(us, base, o, child[o]);
    OverlayUnspent(us, base);
    StoreEntryMovesOneEntry(child, Overlay(us, base), o);
  }

  lemma OverlayUnspent(cache: Cache, base: Utxos)
    requires AllUnspent(base)
    ensures AllUnspent(Overlay(cache, base))
  {
  }

  // ----- Adding and spending -----

  datatype Added = Added(cache: Cache) | ReplacesUnspent

  /** `CCoinsViewCache::AddCoin` past its two early exits. */
  function AddEntry(cache: Cache, o: OutPoint, coin: Coin, possibleOverwrite: bool): Added {
    var prior := if o in cache then cache[o] else Entry(EMPTY_COIN, false, false);
    if !possibleOverwrite && !prior.coin.IsSpent() then
      ReplacesUnspent
    else
      var newlyFresh := !possibleOverwrite && !prior.isDirty;
      Added(cache[o := Entry(coin, true, prior.isFresh || newlyFresh)])
  }

  /**
    What a spend leaves of the entries: nothing where the parent did not know the coin,
    else a spent entry to be written back; the others are as before.
   */
  ghost predicate SpentIn(before: Cache, view: Utxos, o: OutPoint, after: Cache) {
    && after - {o} == before - {o}
    && (o in after ==> after[o] == Entry(EMPTY_COIN, true, false))
    && (o in after <==> if o in before then !before[o].isFresh else o in view)
  }

  lemma SpentAfter(before: Cache, view: Utxos, o: OutPoint, fetched: Cache, after: Cache)
    requires fetched == if o in before || o !in view then before else before[o := Entry(view[o], false, false)]
    requires after == if o !in fetched then fetched
                      else if fetched[o].isFresh then fetched - {o}
                      else fetched[o := Entry(EMPTY_COIN, true, false)]
    ensures SpentIn(before, view, o, after)
  {
  }

  /** `CCoinsViewCache::SpendCoin` once `FetchCoin` has found an entry. */
  function SpendEntry(cache: Cache, o: OutPoint): Cache
    requires o in cache
  {
    if cache[o].isFresh then cache - {o} else cache[o := Entry(EMPTY_COIN, true, false)]
  }

  /**
    Adding a coin where the caller allows an overwrite, or where the view has no
    unspent coin, sets that one coin in the view and keeps the flags honest.
   */
  lemma AddEntryPuts(cache: Cache, base: Utxos, o: OutPoint, coin: Coin, possibleOverwrite: bool)
    requires FlagsHonest(cache, base)
    requires !coin.IsSpent()
    requires possibleOverwrite || o !in Overlay(cache, base)
    ensures var r := AddEntry(cache, o, coin, possibleOverwrite);
            && r.Added?
            && FlagsHonest(r.cache, base)
            && Overlay(r.cache, base) == Overlay(cache, base)[o := coin]
  {
    var r := AddEntry(cache, o, coin, possibleOverwrite);
    OverlayPut(cache, base, o, r.cache[o]);
  }

  /**
    Exactly when a non-overwriting add is safe: it succeeds with honest flags if and
    only if the view has no unspent coin there.
   */
  lemma AddEntrySafeIff(cache: Cache, base: Utxos, o: OutPoint, coin: Coin)
    requires FlagsHonest(cache, base)
    requires !coin.IsSpent()
    ensures var r := AddEntry(cache, o, coin, false);
            (r.Added? && FlagsHonest(r.cache, base)) <==> o !in Overlay(cache, base)
  {
    if o in Overlay(cache, base) {
      var r := AddEntry(cache, o, coin, false);
      if r.Added? {
        assert r.cache[o].isFresh && o in base;
      }
    } else {
      AddEntryPuts(cache, base, o, coin, false);
    }
  }

  /**
    Why the caller's promise matters: without it, an add that does not throw can be
    undone by a later spend, which brings the coin it replaced back to life.
   */
  lemma BrokenPromiseRevivesCoin(base: Utxos, o: OutPoint, coin: Coin)
    requires o in base && !base[o].IsSpent()
    requires !coin.IsSpent()
    ensures var added := AddEntry(map[], o, coin, false);
            && added.Added?
            && Overlay(SpendEntry(added.cache, o), base) == Overlay(map[], base)
            && o in Overlay(SpendEntry(added.cache, o), base)
  {
    var added := AddEntry(map[], o, coin, false);
    assert SpendEntry(added.cache, o) == map[];
  }

  /** Spending an entry that is in the cache removes that one coin from the view. */
  lemma SpendEntryRemoves(cache: Cache, base: Utxos, o: OutPoint)
    requires FlagsHonest(cache, base)
    requires o in cache
    ensures FlagsHonest(SpendEntry(cache, o), base)
    ensures Overlay(SpendEntry(cache, o), base) == Overlay(cache, base) - {o}
  {
    if cache[o].isFresh {
      OverlayErase(cache, base, o);
    } else {
      OverlayPut(cache, base, o, Entry(EMPTY_COIN, true, false));
    }
  }

  /** Filling the cache from the view below shows nothing above. */
  lemma CleanFillInvisible(cache: Cache, base: Utxos, o: OutPoint)
    requires FlagsHonest(cache, base) && o !in cache && o in base && !base[o].IsSpent()
    ensures FlagsHonest(cache[o := Entry(base[o], false, false)], base)
    ensures Overlay(cache[o := Entry(base[o], false, false)], base) == Overlay(cache, base)
  {
    OverlayPut(cache, base, o, Entry(base[o], false, false));
    assert Overlay(cache, base)[o] == base[o];
    PutSame(Overlay(cache, base), o);
  }

  lemma PutSame(view: Utxos, o: OutPoint)
    requires o in view && !view[o].IsSpent()
    ensures Put(view, o, view[o]) == view
  {
  }

  /** Dropping an unflagged entry shows nothing above. */
  lemma CleanDropInvisible(cache: Cache, base: Utxos, o: OutPoint)
    requires FlagsHonest(cache, base) && o in cache && !cache[o].isDirty && !cache[o].isFresh
    ensures FlagsHonest(cache - {o}, base) && Overlay(cache - {o}, base) == Overlay(cache, base)
  {
  }

  // ----- Memory accounting -----

  /** Sum of the dynamic memory of all cached coins. */
  ghost function TotalUsage(cache: Cache, usage: Script -> nat): nat {
    if cache == map[] then 0
    else
      var o :| o in cache;
      usage(cache[o].coin.scriptPubKey) + TotalUsage(cache - {o}, usage)
  }

  /** The sum does not depend on the order in which entries are visited. */
  lemma {:induction false} TotalUsageRemove(cache: Cache, usage: Script -> nat, o: OutPoint)
    requires o in cache
    ensures TotalUsage(cache, usage) == usage(cache[o].coin.scriptPubKey) + TotalUsage(cache - {o}, usage)
    decreases |cache|
  {
    var p :| p in cache
      && TotalUsage(cache, usage) == usage(cache[p].coin.scriptPubKey) + TotalUsage(cache - {p}, usage);
    if p != o {
      TotalUsageRemove(cache - {p}, usage, o);
      TotalUsageRemove(cache - {o}, usage, p);
      assert cache - {p} - {o} == cache - {o} - {p};
    }
  }

  lemma TotalUsagePut(cache: Cache, usage: Script -> nat, o: OutPoint, e: Entry)
    ensures TotalUsage(cache[o := e], usage) ==
            TotalUsage(cache, usage) + usage(e.coin.scriptPubKey)
            - (if o in cache then usage(cache[o].coin.scriptPubKey) else 0)
  {
    TotalUsageRemove(cache[o := e], usage, o);
    assert cache[o := e] - {o} == cache - {o};
    if o in cache {
      TotalUsageRemove(cache, usage, o);
    } else {
      assert cache - {o} == cache;
    }
  }

  lemma WriteEntryUsage(us: Cache, usage: Script -> nat, o: OutPoint, e: Entry)
    requires WriteEntry(us, o, e).Written?
    ensures var us' := WriteEntry(us, o, e).cache;
            TotalUsage(us', usage) ==
            TotalUsage(us, usage)
            - (if e.isDirty && o in us then usage(us[o].coin.scriptPubKey) else 0)
            + (if e.isDirty && o in us' then usage(e.coin.scriptPubKey) else 0)
  {
    var us' := WriteEntry(us, o, e).cache;
    if e.isDirty {
      if o in us' {
        TotalUsagePut(us, usage, o, us'[o]);
      } else if o in us {
        TotalUsageRemove(us, usage, o);
      }
    }
  }

  // ----- The reference machine: one plain map -----

  datatype Op =
    | Read(o: OutPoint)
    | Add(o: OutPoint, coin: Coin, possibleOverwrite: bool)
    | Spend(o: OutPoint)
    | Uncache(o: OutPoint, level: nat)
    | Flush(level: nat)

  /** The coins after one operation, in terms of the plain map alone. */
  ghost function Effect(op: Op, view: Utxos): Utxos {
    match op
    case Add(o, coin, _) => if coin.IsUnspendable() then view else view[o := coin]
    case Spend(o) => view - {o}
    case _ => view
  }

  /** What the operation answers; only reads and spends return a coin. */
  ghost function Answer(op: Op, view: Utxos): Option<Coin> {
    match op
    case Read(o) => if o in view then Some(view[o]) else None
    case Spend(o) => if o in view then Some(view[o]) else None
    case _ => None
  }

  /** The caller's side of `AddCoin`. */
  ghost predicate Legal(op: Op, view: Utxos) {
    op.Add? ==>
      !op.coin.IsSpent() && (op.possibleOverwrite || op.coin.IsUnspendable() || op.o !in view)
  }

  /**
    The same for the whole stack, from the top down: a flush copies a view onto the one
    below it, adding and spending change the top, and everything else changes no view.
   */
  ghost function StackEffect(op: Op, views: seq<Utxos>): (r: seq<Utxos>)
    requires views != []
    ensures |r| == |views| && r[0] == Effect(op, views[0])
  {
    match op
    case Flush(level) => if level + 1 < |views| then views[level + 1 := views[level]] else views
    case _ => views[0 := Effect(op, views[0])]
  }

  lemma FlushBelow(top: Utxos, below: seq<Utxos>, level: nat)
    requires below != []
    ensures StackEffect(Flush(level), [top] + below) ==
            [top] + if level == 0 then below[0 := top] else StackEffect(Flush(level - 1), below)
  {
  }

  lemma TopChanged(op: Op, top: Utxos, below: seq<Utxos>)
    requires !op.Flush?
    ensures StackEffect(op, [top] + below) == [Effect(op, top)] + below
  {
  }

  /** The top of the stack goes its way whatever is below. */
  lemma {:induction false} RunStackTop(ops: seq<Op>, views: seq<Utxos>)
    requires views != []
    ensures RunStack(ops, views) != [] && RunStack(ops, views)[0] == RunEffect(ops, views[0])
    decreases |ops|
  {
    if ops != [] {
      RunStackTop(ops[1..], StackEffect(ops[0], views));
    }
  }

  ghost function RunStack(ops: seq<Op>, views: seq<Utxos>): seq<Utxos>
    requires views != []
  {
    if ops == [] then views else RunStack(ops[1..], StackEffect(ops[0], views))
  }

  ghost predicate LegalRun(ops: seq<Op>, view: Utxos) {
    ops == [] || (Legal(ops[0], view) && LegalRun(ops[1..], Effect(ops[0], view)))
  }

  ghost function RunEffect(ops: seq<Op>, view: Utxos): Utxos {
    if ops == [] then view else RunEffect(ops[1..], Effect(ops[0], view))
  }

  ghost function RunAnswers(ops: seq<Op>, view: Utxos): seq<Option<Coin>> {
    if ops == [] then [] else [Answer(ops[0], view)] + RunAnswers(ops[1..], Effect(ops[0], view))
  }

  // ----- The stack of views -----

  /**
    A view in the stack.  A view without a base is the database
    (`CCoinsViewDB`, src/txdb.cpp:66-108) and holds its coins in `store`; a view with
    a base is a `CCoinsViewCache` and holds its entries in `cacheCoins`.
   */
  class CoinsView {
    const base: CoinsView?
    const usage: Script -> nat
    var store: Utxos
    var cacheCoins: Cache
    var cachedCoinsUsage: int
    ghost const Repr: set<CoinsView>

    ghost predicate Shape()
      decreases Repr
    {
      && this in Repr
      && usage([]) == 0
      && (base != null ==> base.Repr == Repr - {this} && base.Shape())
    }

    ghost predicate Valid()
      requires Shape()
      reads Repr
      decreases Repr
    {
      && AllUnspent(store)
      && (base != null ==>
            && base.Valid()
            && FlagsHonest(cacheCoins, base.View())
            && cachedCoinsUsage == TotalUsage(cacheCoins, usage))
    }

    /** The unspent coins this view shows. */
    ghost function View(): (v: Utxos)
      requires Shape()
      reads Repr
      decreases Repr
    {
      if base == null then store else Overlay(cacheCoins, base.View())
    }

    /** What this view shows and what every view below it shows, from the top down. */
    ghost function Views(): (v: seq<Utxos>)
      requires Shape()
      ensures |v| > 0 && v[0] == View() && (|v| == 1 <==> base == null)
      reads Repr
      decreases Repr
    {
      [View()] + if base == null then [] else base.Views()
    }

    lemma ViewUnspent()
      requires Shape() && Valid()
      ensures AllUnspent(View())
      decreases Repr
    {
      if base != null {
        base.ViewUnspent();
        OverlayUnspent(cacheCoins, base.View());
      }
    }

    constructor Database(coins: Utxos, usage: Script -> nat)
      requires AllUnspent(coins)
      requires usage([]) == 0
      ensures Shape() && Valid() && fresh(Repr)
      ensures base == null && View() == coins
    {
      base := null;
      this.usage := usage;
      store := coins;
      cacheCoins := map[];
      cachedCoinsUsage := 0;
      Repr := {this};
    }

    constructor OnTop(parent: CoinsView)
      requires parent.Shape() && parent.Valid()
      ensures Shape() && Valid() && fresh(Repr - parent.Repr)
      ensures base == parent && View() == parent.View()
    {
      base := parent;
      usage := parent.usage;
      store := map[];
      cacheCoins := map[];
      cachedCoinsUsage := 0;
      Repr := {this} + parent.Repr;
      new;
      assert base.Repr == Repr - {this};
    }

    /**
      `FetchCoin` and `GetCoin` in one dispatch: the database reads its store, a cache
      looks in its own map first and otherwise fills it from its base.
     */
    method GetCoin(o: OutPoint) returns (found: bool, coin: Coin)
      requires Shape() && Valid()
      modifies Repr
      ensures Valid()
      ensures Views() == old(Views())
      ensures found <==> o in View()
      ensures found ==> coin == View()[o] && !coin.IsSpent()
      decreases Repr, 1
    {
      if base == null {
        if o in store {
          return true, store[o];
        }
        return false, EMPTY_COIN;
      }
      var hit := FetchCoin(o);
      if hit {
        coin := cacheCoins[o].coin;
        return !coin.IsSpent(), coin;
      }
      return false, EMPTY_COIN;
    }

    /** Bring the entry for `o` into this cache if the view below has an unspent coin there. */
    method FetchCoin(o: OutPoint) returns (hit: bool)
      requires Shape() && Valid() && base != null
      modifies Repr
      ensures Valid()
      ensures Views() == old(Views())
      ensures hit <==> o in cacheCoins
      ensures !hit ==> o !in View()
      ensures cacheCoins == if o in old(cacheCoins) || o !in View() then old(cacheCoins)
                            else old(cacheCoins)[o := Entry(View()[o], false, false)]
      decreases Repr, 0
    {
      if o in cacheCoins {
        return true;
      }
      var found, tmp := base.GetCoin(o);
      if !found {
        return false;
      }
      // A parent that reports a coin reports an unspent one, so the FRESH case of line 54 stays unused.
      var entry := Entry(tmp, false, tmp.IsSpent());
      CleanFillInvisible(cacheCoins, base.View(), o);
      TotalUsagePut(cacheCoins, usage, o, entry);
      Install(cacheCoins[o := entry], cachedCoinsUsage + usage(tmp.scriptPubKey));
      return true;
    }

    /** `AddCoin`; the early returns come first, as in the source. */
    method AddCoin(o: OutPoint, coin: Coin, possibleOverwrite: bool)
      requires Shape() && Valid() && base != null
      requires Legal(Add(o, coin, possibleOverwrite), View())
      modifies this
      ensures Valid()
      ensures View() == Effect(Add(o, coin, possibleOverwrite), old(View())) && base.Views() == old(base.Views())
      ensures var script := coin.scriptPubKey;
              (script != [] && script[0] == 0x6a) || |script| > 10000 ==> cacheCoins == old(cacheCoins)
      ensures var script := coin.scriptPubKey;
              !((script != [] && script[0] == 0x6a) || |script| > 10000) ==>
                var clean := o !in old(cacheCoins) || !old(cacheCoins)[o].isDirty;
                var was := o in old(cacheCoins) && old(cacheCoins)[o].isFresh;
                cacheCoins == old(cacheCoins)[o := Entry(coin, true, was || (clean && !possibleOverwrite))]
    {
      if coin.IsUnspendable() {
        return;
      }
      AddEntryPuts(cacheCoins, base.View(), o, coin, possibleOverwrite);
      var inserted := o !in cacheCoins;
      var entry := if inserted then Entry(EMPTY_COIN, false, false) else cacheCoins[o];
      var size := if inserted then cachedCoinsUsage else cachedCoinsUsage - usage(entry.coin.scriptPubKey);
      var freshNow := false;
      if !possibleOverwrite {
        // The "replaces non-pruned entry" throw is out of reach of a caller that keeps its promise.
        assert entry.coin.IsSpent();
        freshNow := !entry.isDirty;
      }
      var entry' := Entry(coin, true, entry.isFresh || freshNow);
      TotalUsagePut(cacheCoins, usage, o, entry');
      Install(cacheCoins[o := entry'], size + usage(coin.scriptPubKey));
    }

    /** `SpendCoin`; it answers whether this cache had an entry, and moves its coin out. */
    method SpendCoin(o: OutPoint) returns (hit: bool, moved: Coin)
      requires Shape() && Valid() && base != null
      modifies Repr
      ensures Valid()
      ensures View() == old(View()) - {o} && base.Views() == old(base.Views())
      ensures o in old(View()) ==> hit && moved == old(View())[o]
      ensures o !in old(View()) && hit ==> moved.IsSpent()
      ensures SpentIn(old(cacheCoins), old(View()), o, cacheCoins)
    {
      ghost var views := Views();
      assert base.Views() == views[1..];
      hit := FetchCoin(o);
      assert base.Views() == views[1..];
      ghost var fetched := cacheCoins;
      if !hit {
        moved := EMPTY_COIN;
      } else {
        moved := SpendEntry(o);
      }
      SpentAfter(old(cacheCoins), old(View()), o, fetched, cacheCoins);
    }

    /** The second half of `SpendCoin`: the coin is moved out and the entry erased or cleared. */
    method SpendEntry(o: OutPoint) returns (moved: Coin)
      requires Shape() && Valid() && base != null && o in cacheCoins
      modifies this
      ensures Valid()
      ensures View() == old(View()) - {o} && base.Views() == old(base.Views())
      ensures moved == old(cacheCoins)[o].coin
      ensures cacheCoins == if old(cacheCoins)[o].isFresh then old(cacheCoins) - {o}
                            else old(cacheCoins)[o := Entry(EMPTY_COIN, true, false)]
    {
      SpendEntryRemoves(cacheCoins, base.View(), o);
      moved := cacheCoins[o].coin;
      var size := cachedCoinsUsage - usage(moved.scriptPubKey);
      if cacheCoins[o].isFresh {
        TotalUsageRemove(cacheCoins, usage, o);
        Install(cacheCoins - {o}, size);
      } else {
        TotalUsagePut(cacheCoins, usage, o, Entry(EMPTY_COIN, true, false));
        Install(cacheCoins[o := Entry(EMPTY_COIN, true, false)], size);
      }
    }

    /** `Uncache`: an entry that carries no flag is dropped, any other stays. */
    method Uncache(o: OutPoint)
      requires Shape() && Valid() && base != null
      modifies this
      ensures Valid()
      ensures Views() == old(Views())
      ensures o in old(cacheCoins) ==>
                (o in cacheCoins <==> old(cacheCoins)[o].isDirty || old(cacheCoins)[o].isFresh)
      ensures cacheCoins == old(cacheCoins) || cacheCoins == old(cacheCoins) - {o}
    {
      if o in cacheCoins && !cacheCoins[o].isDirty && !cacheCoins[o].isFresh {
        CleanDropInvisible(cacheCoins, base.View(), o);
        TotalUsageRemove(cacheCoins, usage, o);
        Install(cacheCoins - {o}, cachedCoinsUsage - usage(cacheCoins[o].coin.scriptPubKey));
      }
    }

    /** `CCoinsViewDB::BatchWrite`: afterwards the database shows what the child showed. */
    method BatchWriteToStore(child: Cache)
      requires Shape() && Valid() && base == null
      requires FlagsHonest(child, View())
      modifies this
      ensures Valid()
      ensures View() == Overlay(child, old(View()))
    {
      ghost var target := Overlay(child, store);
      var rest := child;
      while rest != map[]
        invariant AllUnspent(store) && FlagsHonest(rest, store)
        invariant Overlay(rest, store) == target
        decreases rest.Keys
      {
        var o :| o in rest;
        StoreEntryMovesOneEntry(rest, store, o);
        if rest[o].isDirty {
          if rest[o].coin.IsSpent() {
            store := store - {o};
          } else {
            store := store[o := rest[o].coin];
          }
        }
        rest := rest - {o};
      }
      OverlayEmpty(store);
    }

    /**
      `CCoinsViewCache::BatchWrite`.  The child's entries are visited in no particular
      order; afterwards this cache shows what the child showed.
     */
    method BatchWriteToCache(child: Cache)
      requires Shape() && Valid() && base != null
      requires FlagsHonest(child, View())
      modifies this
      ensures Valid()
      ensures View() == Overlay(child, old(View())) && base.Views() == old(base.Views())
    {
      base.ViewUnspent();
      ghost var stack := base.Views();
      ghost var below := base.View();
      ghost var target := Overlay(child, View());
      var rest := child;
      while rest != map[]
        invariant Valid() && base.View() == below && base.Views() == stack
        invariant FlagsHonest(rest, Overlay(cacheCoins, below))
        invariant Overlay(rest, Overlay(cacheCoins, below)) == target
        decreases rest.Keys
      {
        var o :| o in rest;
        WriteEntryMovesOneEntry(rest, cacheCoins, below, o);
        WriteOne(o, rest[o]);
        rest := rest - {o};
      }
      OverlayEmpty(View());
    }

    /** One iteration of the loop on a cache: the cases of src/coins.cpp:164-210. */
    method WriteOne(o: OutPoint, e: Entry)
      requires Shape() && Valid() && base != null
      requires e.isFresh ==> o !in View()
      modifies this
      ensures Valid()
      ensures base.Views() == old(base.Views())
      ensures WriteEntry(old(cacheCoins), o, e) == Written(cacheCoins)
    {
      WriteEntryPuts(cacheCoins, base.View(), o, e);
      WriteEntryUsage(cacheCoins, usage, o, e);
      if e.isDirty {
        var size := usage(e.coin.scriptPubKey);
        if o !in cacheCoins {
          if !(e.isFresh && e.coin.IsSpent()) {
            Install(cacheCoins[o := Entry(e.coin, true, e.isFresh)], cachedCoinsUsage + size);
          }
        } else {
          var ours := cacheCoins[o];
          // WriteEntryPuts has ruled out the "FRESH flag misapplied" throw.
          assert !(e.isFresh && !ours.coin.IsSpent());
          var without := cachedCoinsUsage - usage(ours.coin.scriptPubKey);
          if ours.isFresh && e.coin.IsSpent() {
            Install(cacheCoins - {o}, without);
          } else {
            Install(cacheCoins[o := Entry(e.coin, true, ours.isFresh)], without + size);
          }
        }
      }
    }

    /** Assign both fields of the cache at once. */
    method Install(cache: Cache, size: int)
      requires Shape() && Valid() && base != null
      requires FlagsHonest(cache, base.View())
      requires size == TotalUsage(cache, usage)
      modifies this
      ensures Valid()
      ensures cacheCoins == cache
      ensures base.Views() == old(base.Views()) && View() == Overlay(cache, old(base.View()))
    {
      cacheCoins := cache;
      cachedCoinsUsage := size;
    }

    /** The dispatch between the two. */
    method BatchWrite(child: Cache)
      requires Shape() && Valid() && FlagsHonest(child, View())
      modifies this
      ensures Valid()
      ensures Views() == old(Views())[0 := Overlay(child, old(View()))]
    {
      if base == null {
        BatchWriteToStore(child);
      } else {
        BatchWriteToCache(child);
      }
    }

    /** `Flush`: both this view and its base end up showing what this view showed. */
    method Flush()
      requires Shape() && Valid() && base != null
      modifies this, base
      ensures Valid()
      ensures View() == old(View()) && base.Views() == old(base.Views())[0 := old(View())]
      ensures cacheCoins == map[]
    {
      base.BatchWrite(cacheCoins);
      cacheCoins := map[];
      cachedCoinsUsage := 0;
      OverlayEmpty(base.View());
    }

    /** Flush the cache `level` steps below this one; a level that is no cache is ignored. */
    method FlushAt(level: nat)
      requires Shape() && Valid()
      modifies Repr
      ensures Valid() && Views() == StackEffect(Op.Flush(level), old(Views()))
      decreases Repr
    {
      if base != null {
        ghost var top, below := View(), base.Views();
        if level == 0 {
          Flush();
        } else {
          base.FlushAt(level - 1);
        }
        FlushBelow(top, below, level);
      }
    }

    /** Uncache at the cache `level` steps below this one. */
    method UncacheAt(o: OutPoint, level: nat)
      requires Shape() && Valid()
      modifies Repr
      ensures Valid() && Views() == old(Views())
      decreases Repr
    {
      if base != null {
        if level == 0 {
          Uncache(o);
        } else {
          base.UncacheAt(o, level - 1);
        }
      }
    }

    /** One operation at the top of the stack. */
    method Perform(op: Op) returns (answer: Option<Coin>)
      requires Shape() && Valid() && base != null
      requires Legal(op, View())
      modifies Repr
      ensures Valid()
      ensures Views() == StackEffect(op, old(Views()))
      ensures answer == Answer(op, old(View()))
    {
      answer := None;
      ghost var top, below := View(), base.Views();
      if !op.Flush? {
        TopChanged(op, top, below);
      }
      match op
      case Read(o) =>
        var found, coin := GetCoin(o);
        if found {
          answer := Some(coin);
        }
      case Add(o, coin, possibleOverwrite) =>
        AddCoin(o, coin, possibleOverwrite);
      case Spend(o) =>
        ViewUnspent();
        var hit, coin := SpendCoin(o);
        if hit && !coin.IsSpent() {
          answer := Some(coin);
        }
      case Uncache(o, level) =>
        UncacheAt(o, level);
      case Flush(level) =>
        FlushAt(level);
    }

    /**
      The main theorem: however deep the stack and whatever is flushed or uncached at
      any level in between, a run at its top gives the answers, and leaves the coins,
      of one plain map.
     */
    method Run(ops: seq<Op>) returns (answers: seq<Option<Coin>>)
      requires Shape() && Valid() && base != null
      requires LegalRun(ops, View())
      modifies Repr
      ensures Valid()
      ensures View() == RunEffect(ops, old(View())) && Views() == RunStack(ops, old(Views()))
      ensures answers == RunAnswers(ops, old(View()))
      decreases |ops|
    {
      if ops == [] {
        return [];
      }
      RunStackTop(ops, Views());
      var answer := Perform(ops[0]);
      var rest := Run(ops[1..]);
      answers := [answer] + rest;
    }
  }
}
