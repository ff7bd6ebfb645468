/**
  The rolling bloom filter (`CRollingBloomFilter` in src/bloom.cpp).  Each position
  has a two-bit tag, kept in two separate words: 0 for unset, else the number 1, 2 or
  3 of the generation that last wrote it.  Generation numbers are used over again, so
  a new generation first wipes the tags that carry its number.
 */
module RollingBloom {

  type Key = seq<nat>

  // ----- 64-bit words, bit by bit -----

  type Word = w: seq<bool> | |w| == 64 witness seq(64, _ => false)

  function And(x: Word, y: Word): Word {
    seq(64, i requires 0 <= i < 64 => x[i] && y[i])
  }

  function Or(x: Word, y: Word): Word {
    seq(64, i requires 0 <= i < 64 => x[i] || y[i])
  }

  function Xor(x: Word, y: Word): Word {
    seq(64, i requires 0 <= i < 64 => x[i] != y[i])
  }

  function Not(x: Word): Word {
    seq(64, i requires 0 <= i < 64 => !x[i])
  }

  /** 0 or 1, shifted left. */
  function Shifted(g: bool, b: nat): Word
    requires b < 64
  {
    seq(64, i => g && i == b)
  }

  /** Minus one is all ones and minus zero is all zeros. */
  function Minus(g: bool): Word {
    seq(64, _ => g)
  }

  // ----- Tags -----

  /** The tag at bit `b` of a pair of words. */
  function Tag(p1: Word, p2: Word, b: nat): (t: nat)
    requires b < 64
    ensures t <= 3
  {
    (if p1[b] then 1 else 0) + (if p2[b] then 2 else 0)
  }

  // ----- What the filter should remember -----

  /** Two hash values select the same bit of the same pair of words. */
  ghost predicate SamePlace(h: nat, h': nat, words: nat)
    requires words >= 1
  {
    h % 64 == h' % 64 && h / 64 % words / 2 == h' / 64 % words / 2
  }

  datatype Config = Config(hash: (nat, nat, Key) -> nat, tweak: nat, size: nat, funcs: nat, perGeneration: nat) {
    ghost predicate Valid() {
      size >= 2 && size % 2 == 0 && perGeneration >= 1
    }

    /** The pair of words and the bit that hash function `n` picks for a key. */
    function Slot(n: nat, key: Key): (s: (nat, nat))
      requires Valid()
      ensures 2 * s.0 < size && s.1 < 64
    {
      var h := hash(n, tweak, key);
      (h / 64 % size / 2, h % 64)
    }

    /** Hash function `n` takes this key to a place where one of these keys was put. */
    ghost predicate Shared(keys: seq<Key>, n: nat, key: Key)
      requires Valid()
    {
      exists k, m: nat :: k in keys && m < funcs && SamePlace(hash(m, tweak, k), hash(n, tweak, key), size)
    }
  }

  /**
    The run since the last reset: how many generations were begun after the first, in
    which of them each position was last written, the keys inserted, and how many of
    them before this generation.
   */
  datatype History = History(era: nat, last: map<(nat, nat), nat>, keys: seq<Key>, before: nat) {

    /** The tag a position should have: the number of its last write, for three eras. */
    ghost function Expected(s: (nat, nat)): nat {
      if s in last && last[s] + 3 > era then 1 + last[s] % 3 else 0
    }

    /** How many eras ago a key was inserted, for the keys of the last three eras. */
    ghost function Age(c: Config, i: nat): nat {
      if i >= before then 0 else if i + c.perGeneration >= before then 1 else 2
    }

    /** The first key of the last three eras. */
    ghost function Oldest(c: Config): nat {
      if before >= 2 * c.perGeneration then before - 2 * c.perGeneration else 0
    }

    /** The positions of a key were written no earlier than it was inserted. */
    ghost predicate Remembers(c: Config, i: nat)
      requires c.Valid() && i < |keys|
    {
      forall n :: 0 <= n < c.funcs ==> WrittenSince(c.Slot(n, keys[i]), Age(c, i))
    }

    ghost predicate WrittenSince(s: (nat, nat), age: nat) {
      s in last && last[s] + age >= era
    }

    /** This position was last written for this hash function and key, in the era of that key. */
    ghost predicate WrittenFor(c: Config, s: (nat, nat), i: nat, m: nat)
      requires c.Valid() && s in last
    {
      Oldest(c) <= i < |keys| && m < c.funcs && c.Slot(m, keys[i]) == s && Age(c, i) + last[s] == era
    }

    /** Each write of the last three eras was for a key of its own era. */
    ghost predicate Grounded(c: Config)
      requires c.Valid()
    {
      forall s <- last :: last[s] + 3 > era ==> exists i: nat, m: nat :: WrittenFor(c, s, i, m)
    }

    ghost predicate Sound(c: Config, entries: nat)
      requires c.Valid()
    {
      && |keys| == before + entries && entries <= c.perGeneration
      && (forall s <- last :: last[s] <= era)
      && forall i :: Oldest(c) <= i < |keys| ==> Remembers(c, i)
    }
  }

  /** A new era makes every key one era older. */
  lemma NextEraSound(c: Config, h: History)
    requires c.Valid() && h.Sound(c, c.perGeneration)
    ensures h.(era := h.era + 1, before := |h.keys|).Sound(c, 0)
  {
    var h' := h.(era := h.era + 1, before := |h.keys|);
    forall i | h'.Oldest(c) <= i < |h'.keys| ensures h'.Remembers(c, i) {
      assert h.Remembers(c, i);
      assert h'.Age(c, i) == h.Age(c, i) + 1;
      forall n | 0 <= n < c.funcs ensures h'.WrittenSince(c.Slot(n, h'.keys[i]), h'.Age(c, i)) {
        assert h.WrittenSince(c.Slot(n, h.keys[i]), h.Age(c, i));
      }
    }
  }

  /** Either nothing was written here, or it was for this key. */
  ghost predicate OnlyFor(c: Config, h: History, last: map<(nat, nat), nat>, key: Key, s: (nat, nat))
    requires c.Valid() && s in last
  {
    || (s in h.last && last[s] == h.last[s])
    || (last[s] == h.era && exists m: nat :: m < c.funcs && c.Slot(m, key) == s)
  }

  /** The record when the first `n` positions of a key are written in the current era, and no others. */
  ghost predicate Marked(c: Config, h: History, last: map<(nat, nat), nat>, key: Key, n: nat)
    requires c.Valid()
  {
    && (forall s <- last :: last[s] <= h.era && OnlyFor(c, h, last, key, s))
    && (forall s <- h.last :: s in last && last[s] >= h.last[s])
    && forall m :: 0 <= m < n ==> c.Slot(m, key) in last && last[c.Slot(m, key)] == h.era
  }

  lemma MarkedNext(c: Config, h: History, last: map<(nat, nat), nat>, key: Key, n: nat, n': nat)
    requires c.Valid() && n < c.funcs && n' == n + 1 && Marked(c, h, last, key, n)
    requires forall s <- h.last :: h.last[s] <= h.era
    ensures Marked(c, h, last[c.Slot(n, key) := h.era], key, n')
  {
    var last' := last[c.Slot(n, key) := h.era];
    forall s <- last' ensures last'[s] <= h.era && OnlyFor(c, h, last', key, s) {
      if s != c.Slot(n, key) {
        assert OnlyFor(c, h, last, key, s);
      }
    }
  }

  /** Writing positions in the current era keeps every key and adds one. */
  lemma MarkedSound(c: Config, h: History, entries: nat, last: map<(nat, nat), nat>, key: Key)
    requires c.Valid() && h.Sound(c, entries) && entries < c.perGeneration
    requires Marked(c, h, last, key, c.funcs)
    ensures h.(last := last, keys := h.keys + [key]).Sound(c, entries + 1)
  {
    var h' := h.(last := last, keys := h.keys + [key]);
    forall i | h'.Oldest(c) <= i < |h'.keys| ensures h'.Remembers(c, i) {
      forall n | 0 <= n < c.funcs ensures h'.WrittenSince(c.Slot(n, h'.keys[i]), h'.Age(c, i)) {
        if i < |h.keys| {
          assert h.Remembers(c, i);
          assert h.WrittenSince(c.Slot(n, h.keys[i]), h.Age(c, i));
        }
      }
    }
  }

  lemma NextEraGrounded(c: Config, h: History)
    requires c.Valid() && h.Sound(c, c.perGeneration) && h.Grounded(c)
    ensures h.(era := h.era + 1, before := |h.keys|).Grounded(c)
  {
    var h' := h.(era := h.era + 1, before := |h.keys|);
    forall s <- h'.last | h'.last[s] + 3 > h'.era ensures exists i: nat, m: nat :: h'.WrittenFor(c, s, i, m) {
      var i: nat, m: nat :| h.WrittenFor(c, s, i, m);
      assert h'.WrittenFor(c, s, i, m);
    }
  }

  /** The writes for a new key are grounded in it. */
  lemma MarkedGrounded(c: Config, h: History, last: map<(nat, nat), nat>, key: Key)
    requires c.Valid() && h.Grounded(c) && |h.keys| >= h.before
    requires Marked(c, h, last, key, c.funcs)
    ensures h.(last := last, keys := h.keys + [key]).Grounded(c)
  {
    var h' := h.(last := last, keys := h.keys + [key]);
    forall s <- h'.last | h'.last[s] + 3 > h'.era ensures exists i: nat, m: nat :: h'.WrittenFor(c, s, i, m) {
      assert OnlyFor(c, h, last, key, s);
      if s in h.last && last[s] == h.last[s] {
        var i: nat, m: nat :| h.WrittenFor(c, s, i, m);
        assert h'.WrittenFor(c, s, i, m);
      } else {
        var m: nat :| m < c.funcs && c.Slot(m, key) == s;
        assert h'.WrittenFor(c, s, |h.keys|, m);
      }
    }
  }

  /** A position has its tag set exactly if one of the keys of the last three eras was put there. */
  lemma TaggedIff(c: Config, h: History, entries: nat, n: nat, key: Key)
    requires c.Valid() && h.Sound(c, entries) && h.Grounded(c)
    ensures h.Expected(c.Slot(n, key)) != 0 <==> c.Shared(h.keys[h.Oldest(c)..], n, key)
  {
    var s := c.Slot(n, key);
    if h.Expected(s) != 0 {
      var i: nat, m: nat :| h.WrittenFor(c, s, i, m);
      assert h.keys[h.Oldest(c)..][i - h.Oldest(c)] == h.keys[i];
      assert SamePlace(c.hash(m, c.tweak, h.keys[i]), c.hash(n, c.tweak, key), c.size);
    }
    if c.Shared(h.keys[h.Oldest(c)..], n, key) {
      var k, m: nat :| k in h.keys[h.Oldest(c)..] && m < c.funcs
        && SamePlace(c.hash(m, c.tweak, k), c.hash(n, c.tweak, key), c.size);
      var i :| h.Oldest(c) <= i < |h.keys| && h.keys[i] == k;
      assert c.Slot(m, k) == s;
      RememberedIsTagged(c, h, entries, i, m);
    }
  }

  /** A position written in the last three eras has its tag set. */
  lemma RememberedIsTagged(c: Config, h: History, entries: nat, i: nat, n: nat)
    requires c.Valid() && h.Sound(c, entries) && h.Oldest(c) <= i < |h.keys| && n < c.funcs
    ensures h.Expected(c.Slot(n, h.keys[i])) != 0
  {
    assert h.Remembers(c, i);
    assert h.WrittenSince(c.Slot(n, h.keys[i]), h.Age(c, i));
  }

  lemma KnownIsShared(c: Config, keys: seq<Key>, key: Key)
    requires c.Valid()
    ensures key in keys ==> forall n :: 0 <= n < c.funcs ==> c.Shared(keys, n, key)
    ensures keys == [] ==> forall n :: 0 <= n < c.funcs ==> !c.Shared(keys, n, key)
  {
    forall n | 0 <= n < c.funcs && key in keys ensures c.Shared(keys, n, key) {
      assert SamePlace(c.hash(n, c.tweak, key), c.hash(n, c.tweak, key), c.size);
    }
  }

  /** The number a new generation takes over was last used three eras before. */
  lemma Recycled(h: History, s: (nat, nat))
    requires forall p <- h.last :: h.last[p] <= h.era
    ensures h.(era := h.era + 1).Expected(s) == if h.Expected(s) == 1 + (h.era + 1) % 3 then 0 else h.Expected(s)
  {
  }

  class Filter {
    const hash: (nat, nat, Key) -> nat
    const nHashFuncs: nat
    const nEntriesPerGeneration: nat
    const data: array<Word>
    var nEntriesThisGeneration: nat
    var nGeneration: nat
    var nTweak: nat
    ghost var history: History

    function Cfg(): Config
      reads this
    {
      Config(hash, nTweak, data.Length, nHashFuncs, nEntriesPerGeneration)
    }

    ghost function TagAt(q: nat, b: nat): nat
      reads data
      requires 2 * q + 1 < data.Length && b < 64
    {
      Tag(data[2 * q], data[2 * q + 1], b)
    }

    ghost predicate TagsRight(h: History)
      reads data
    {
      forall q, b :: 0 <= 2 * q < data.Length - 1 && 0 <= b < 64 ==> TagAt(q, b) == h.Expected((q, b))
    }

    ghost predicate Valid()
      reads this, data
    {
      && Cfg().Valid() && history.Sound(Cfg(), nEntriesThisGeneration) && history.Grounded(Cfg())
      && nGeneration == 1 + history.era % 3 && TagsRight(history)
    }

    /** The sizes come from floating-point formulas, so they are parameters here. */
    constructor (hash: (nat, nat, Key) -> nat, nElements: nat, nHashFuncs: nat, nFilterBits: nat, tweak: nat)
      requires nElements >= 1 && nHashFuncs >= 1 && nFilterBits >= 1
      ensures Valid() && fresh(data) && history.keys == [] && nEntriesPerGeneration == (nElements + 1) / 2
      ensures this.hash == hash && this.nHashFuncs == nHashFuncs && nTweak == tweak
      ensures data.Length == (nFilterBits + 63) / 64 * 2 && nEntriesThisGeneration == 0
    {
      this.hash := hash;
      this.nHashFuncs := nHashFuncs;
      nEntriesPerGeneration := (nElements + 1) / 2;
      data := new Word[(nFilterBits + 63) / 64 * 2](_ => Minus(false));
      new;
      Reset(tweak);
    }

    /** `reset`. */
    method Reset(tweak: nat)
      requires Cfg().Valid()
      modifies this, data
      ensures Valid() && history.keys == [] && nTweak == tweak && nEntriesThisGeneration == 0
    {
      nTweak := tweak;
      nEntriesThisGeneration := 0;
      nGeneration := 1;
      for i := 0 to data.Length
        modifies data
        invariant forall k :: 0 <= k < i ==> data[k] == Minus(false)
      {
        data[i] := Minus(false);
      }
      history := History(0, map[], [], 0);
    }

    /** The start of `insert`: begin a new generation and wipe what carries its number. */
    method BeginGeneration()
      requires Valid() && nEntriesThisGeneration == nEntriesPerGeneration
      modifies this, data
      ensures Valid() && nEntriesThisGeneration == 0 && history.keys == old(history.keys) && nTweak == old(nTweak)
    {
      ghost var h := history;
      nEntriesThisGeneration := 0;
      nGeneration := nGeneration + 1;
      if nGeneration == 4 {
        nGeneration := 1;
      }
      WipeFor(h, h.(era := h.era + 1, before := |h.keys|));
      history := h.(era := h.era + 1, before := |h.keys|);
      NextEraSound(Cfg(), h);
      NextEraGrounded(Cfg(), h);
    }

    /** The wipe leaves the tags the new era should have. */
    method WipeFor(ghost h: History, ghost h': History)
      requires data.Length % 2 == 0 && nGeneration == 1 + (h.era + 1) % 3 && TagsRight(h)
      requires h'.era == h.era + 1 && h'.last == h.last && forall p <- h.last :: h.last[p] <= h.era
      modifies data
      ensures TagsRight(h')
    {
      Wipe();
      forall q, b | 0 <= 2 * q < data.Length - 1 && 0 <= b < 64 ensures TagAt(q, b) == h'.Expected((q, b)) {
        Recycled(h, (q, b));
        assert old(TagAt(q, b)) == h.Expected((q, b));
      }
    }

    /** The masked wipe: exactly the tags equal to the generation number are cleared. */
    method Wipe()
      requires data.Length % 2 == 0 && 1 <= nGeneration <= 3
      modifies data
      ensures forall q, b :: 0 <= 2 * q < data.Length - 1 && 0 <= b < 64 ==>
                TagAt(q, b) == if old(TagAt(q, b)) == nGeneration then 0 else old(TagAt(q, b))
    {
      var mask1, mask2 := Minus(nGeneration % 2 == 1), Minus(nGeneration / 2 == 1);
      var p := 0;
      while p < data.Length
        invariant 0 <= p <= data.Length && p % 2 == 0
        invariant forall k :: p <= k < data.Length ==> data[k] == old(data[k])
        invariant forall q, b :: 0 <= 2 * q < p && 0 <= b < 64 ==>
                    TagAt(q, b) == if old(TagAt(q, b)) == nGeneration then 0 else old(TagAt(q, b))
      {
        var p1, p2 := data[p], data[p + 1];
        var mask := Or(Xor(p1, mask1), Xor(p2, mask2));
        data[p] := And(p1, mask);
        data[p + 1] := And(p2, mask);
        p := p + 2;
      }
    }

    /** Write a tag; every other position keeps its own. */
    method WriteTag(s: (nat, nat))
      requires 2 * s.0 + 1 < data.Length && s.1 < 64 && 1 <= nGeneration <= 3
      modifies data
      ensures TagAt(s.0, s.1) == nGeneration
      ensures forall q, b :: 0 <= 2 * q < data.Length - 1 && 0 <= b < 64 && (q, b) != s ==>
                TagAt(q, b) == old(TagAt(q, b))
    {
      var i, bit := 2 * s.0, s.1;
      data[i] := Or(And(data[i], Not(Shifted(true, bit))), Shifted(nGeneration % 2 == 1, bit));
      data[i + 1] := Or(And(data[i + 1], Not(Shifted(true, bit))), Shifted(nGeneration / 2 == 1, bit));
    }

    /** One write of the current era, in the table and in the record. */
    method MarkOne(s: (nat, nat), ghost last: map<(nat, nat), nat>)
      requires 2 * s.0 + 1 < data.Length && s.1 < 64
      requires nGeneration == 1 + history.era % 3 && TagsRight(history.(last := last))
      modifies data
      ensures TagsRight(history.(last := last[s := history.era]))
    {
      WriteTag(s);
    }

    /** The loop of `insert`: tag the positions of a key with the current generation. */
    method Mark(key: Key) returns (ghost last: map<(nat, nat), nat>)
      requires Cfg().Valid() && nGeneration == 1 + history.era % 3 && TagsRight(history)
      requires forall s <- history.last :: history.last[s] <= history.era
      modifies data
      ensures TagsRight(history.(last := last))
      ensures Marked(Cfg(), history, last, key, nHashFuncs)
    {
      last := history.last;
      assert history.(last := last) == history;
      for n := 0 to nHashFuncs
        invariant TagsRight(history.(last := last))
        invariant Marked(Cfg(), history, last, key, n)
      {
        MarkOne(Cfg().Slot(n, key), last);
        MarkedNext(Cfg(), history, last, key, n, n + 1);
        last := last[Cfg().Slot(n, key) := history.era];
      }
    }

    /** `insert`. */
    method Insert(key: Key)
      requires Valid()
      modifies this, data
      ensures Valid() && history.keys == old(history.keys) + [key] && nTweak == old(nTweak)
      ensures var n := old(nEntriesThisGeneration);
              nEntriesThisGeneration == if n == nEntriesPerGeneration then 1 else n + 1
    {
      if nEntriesThisGeneration == nEntriesPerGeneration {
        BeginGeneration();
      }
      ghost var last := Mark(key);
      MarkedSound(Cfg(), history, nEntriesThisGeneration, last, key);
      MarkedGrounded(Cfg(), history, last, key);
      nEntriesThisGeneration := nEntriesThisGeneration + 1;
      history := history.(last := last, keys := history.keys + [key]);
    }

    /** The last `n` keys inserted, or all of them if there are fewer. */
    ghost function LastKeys(n: nat): seq<Key>
      reads this
    {
      var keys := history.keys;
      if n <= |keys| then keys[|keys| - n..] else keys
    }

    /**
      `contains`.  A key is found exactly if each hash function takes it to a place where
      a key of this or the two previous generations was put, so each of those is found.
     */
    method Contains(key: Key) returns (found: bool)
      requires Valid()
      ensures var recent := LastKeys(2 * nEntriesPerGeneration + nEntriesThisGeneration);
              && (found <==> forall n :: 0 <= n < nHashFuncs ==> Cfg().Shared(recent, n, key))
              && (key in recent ==> found)
              && (recent == [] && nHashFuncs >= 1 ==> !found)
    {
      ghost var c, recent := Cfg(), LastKeys(2 * nEntriesPerGeneration + nEntriesThisGeneration);
      KnownIsShared(c, recent, key);
      for n := 0 to nHashFuncs
        invariant forall m :: 0 <= m < n ==> c.Shared(recent, m, key)
      {
        var isSet := IsSet(n, key);
        if !isSet {
          return false;
        }
      }
      assert nHashFuncs >= 1 ==> c.Shared(recent, 0, key);
      return true;
    }

    /** Line 286: some tag is set where this hash function takes the key. */
    method IsSet(n: nat, key: Key) returns (r: bool)
      requires Valid()
      ensures r <==> Cfg().Shared(LastKeys(2 * nEntriesPerGeneration + nEntriesThisGeneration), n, key)
    {
      var s := Cfg().Slot(n, key);
      assert LastKeys(2 * nEntriesPerGeneration + nEntriesThisGeneration) == history.keys[history.Oldest(Cfg())..];
      TaggedIff(Cfg(), history, nEntriesThisGeneration, n, key);
      assert TagAt(s.0, s.1) == history.Expected(s);
      r := Or(data[2 * s.0], data[2 * s.0 + 1])[s.1];
    }

    /** Every run of inserts is recorded in order, so `Contains` speaks of the last keys of the whole run. */
    method InsertAll(added: seq<Key>)
      requires Valid()
      modifies this, data
      ensures Valid() && history.keys == old(history.keys) + added
    {
      for k := 0 to |added|
        invariant Valid() && history.keys == old(history.keys) + added[..k]
      {
        Insert(added[k]);
        assert added[..k + 1] == added[..k] + [added[k]];
      }
      assert added[..|added|] == added;
    }
  }
}
