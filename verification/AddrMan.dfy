/**
  The stochastic address manager (src/addrman.h, src/addrman.cpp): the tables as
  values, the operations on them, and the invariant that every operation keeps.

  Hash functions, the routability test, random choices and the clock are parameters.
  A table is the map of its occupied slots; an absent slot is a -1 in the source.
 */
module AddrMan {

  import opened Basics

  const TRIED_BUCKET_COUNT: nat := 256
  const NEW_BUCKET_COUNT: nat := 1024
  const BUCKET_SIZE: nat := 64
  const NEW_BUCKETS_PER_ADDRESS: nat := 8
  const HORIZON_DAYS: nat := 30
  const RETRIES: nat := 3
  const MAX_FAILURES: nat := 10
  const MIN_FAIL_DAYS: nat := 7
  const GETADDR_MAX_PCT: nat := 23
  const GETADDR_MAX: nat := 2500

  type NetAddr = nat
  type Key = nat

  datatype Service = Service(ip: NetAddr, port: nat)

  /** A network address as announced: `CAddress`. */
  datatype Address = Address(service: Service, nServices: bv64, nTime: nat)

  /** `CAddrInfo`. */
  datatype Info = Info(
    addr: Address,
    source: NetAddr,
    nLastSuccess: int,
    nAttempts: int,
    nRefCount: int,
    fInTried: bool,
    nRandomPos: int,
    nLastTry: int,
    nLastCountAttempt: int)

  /** All that decides where an entry belongs: the hash functions, the secret key, the settings. */
  datatype Config = Config(
    nKey: Key,
    triedHash: (Key, Service) -> nat,
    newHash: (Key, Service, NetAddr) -> nat,
    positionHash: (Key, bool, nat, Service) -> nat,
    routable: Service -> bool,
    discriminatePorts: bool)

  datatype Slot = Slot(bucket: nat, pos: nat)

  type Table = map<Slot, int>

  datatype State = State(
    cfg: Config,
    nIdCount: int,
    mapInfo: map<int, Info>,
    mapAddr: map<Service, int>,
    vRandom: seq<int>,
    nTried: int,
    vvTried: Table,
    nNew: int,
    vvNew: Table,
    nLastGood: int)

  // ----- Where an entry belongs -----

  function BucketPosition(c: Config, a: Service, fNew: bool, bucket: nat): (pos: nat)
    ensures pos < BUCKET_SIZE
  {
    c.positionHash(c.nKey, fNew, bucket, a) % BUCKET_SIZE
  }

  function TriedSlot(c: Config, a: Service): (slot: Slot)
    ensures slot.bucket < TRIED_BUCKET_COUNT && slot.pos < BUCKET_SIZE
  {
    var bucket := c.triedHash(c.nKey, a) % TRIED_BUCKET_COUNT;
    Slot(bucket, BucketPosition(c, a, false, bucket))
  }

  function NewSlot(c: Config, a: Service, source: NetAddr): (slot: Slot)
    ensures slot.bucket < NEW_BUCKET_COUNT && slot.pos < BUCKET_SIZE
  {
    var bucket := c.newHash(c.nKey, a, source) % NEW_BUCKET_COUNT;
    Slot(bucket, BucketPosition(c, a, true, bucket))
  }

  /** The key under which an address is indexed. */
  function Normal(c: Config, a: Service): Service {
    if c.discriminatePorts then a else Service(a.ip, 0)
  }

  /** `CAddrInfo::IsTerrible`. */
  predicate IsTerrible(info: Info, now: int) {
    if info.nLastTry != 0 && info.nLastTry >= now - 60 then false
    else if info.addr.nTime > now + 10 * 60 then true
    else if info.addr.nTime == 0 || now - info.addr.nTime > HORIZON_DAYS * 24 * 60 * 60 then true
    else if info.nLastSuccess == 0 && info.nAttempts >= RETRIES then true
    else now - info.nLastSuccess > MIN_FAIL_DAYS * 24 * 60 * 60 && info.nAttempts >= MAX_FAILURES
  }

  /** Conversion of an int64 to the 32-bit nTime field. */
  function ToU32(x: int): nat {
    x % 0x1_0000_0000
  }

  // ----- The invariant -----

  /** The new-table slots that hold `id`. */
  ghost function Refs(t: Table, id: int): set<Slot> {
    set slot | slot in t && t[slot] == id
  }

  ghost function NewIds(m: map<int, Info>): set<int> {
    set id | id in m && !m[id].fInTried
  }

  ghost function TriedIds(m: map<int, Info>): set<int> {
    set id | id in m && m[id].fInTried
  }

  /** vRandom lists every id once, and nRandomPos is its inverse. */
  ghost predicate RandomOk(m: map<int, Info>, vRandom: seq<int>) {
    && (forall id :: id in m ==> 0 <= m[id].nRandomPos < |vRandom| && vRandom[m[id].nRandomPos] == id)
    && (forall i :: 0 <= i < |vRandom| ==> vRandom[i] in m && m[vRandom[i]].nRandomPos == i)
  }

  /** mapAddr is the inverse of the normalised address. */
  ghost predicate AddrOk(c: Config, m: map<int, Info>, mapAddr: map<Service, int>) {
    && (forall id :: id in m ==>
          var a := Normal(c, m[id].addr.service); a in mapAddr && mapAddr[a] == id)
    && (forall a :: a in mapAddr ==>
          mapAddr[a] in m && Normal(c, m[mapAddr[a]].addr.service) == a)
  }

  ghost predicate IdsOk(m: map<int, Info>, nIdCount: int) {
    0 <= nIdCount && forall id :: id in m ==> 0 <= id < nIdCount
  }

  /** Every occupied new slot holds a known entry at the position computed for it. */
  ghost predicate NewTableOk(c: Config, m: map<int, Info>, t: Table) {
    forall slot :: slot in t ==>
      && slot.bucket < NEW_BUCKET_COUNT
      && t[slot] in m
      && slot.pos == BucketPosition(c, m[t[slot]].addr.service, true, slot.bucket)
  }

  /**
    nRefCount counts the new slots of an entry: none for a tried entry, one to eight
    for a new one, and none for an entry in `floating`, which is between tables.
   */
  ghost predicate RefsOk(m: map<int, Info>, t: Table, floating: set<int>) {
    forall id :: id in m ==>
      && m[id].nRefCount == |Refs(t, id)|
      && m[id].nRefCount <= NEW_BUCKETS_PER_ADDRESS
      && (m[id].nRefCount == 0 <==> m[id].fInTried || id in floating)
  }

  /** The tried table holds exactly the tried entries, each at its computed slot. */
  ghost predicate TriedTableOk(c: Config, m: map<int, Info>, t: Table) {
    && (forall slot :: slot in t ==>
          && t[slot] in m
          && m[t[slot]].fInTried
          && slot == TriedSlot(c, m[t[slot]].addr.service))
    && (forall id :: id in m && m[id].fInTried ==>
          var slot := TriedSlot(c, m[id].addr.service);
          slot in t && t[slot] == id)
  }

  /** The two counters; nNew is behind by `uncounted` in the middle of an operation. */
  ghost predicate CountsOk(m: map<int, Info>, nNew: int, nTried: int, uncounted: int) {
    nNew == |NewIds(m)| - uncounted && nTried == |TriedIds(m)|
  }

  /** In the middle of an operation; nothing is said of the index by address. */
  ghost predicate Between(s: State, floating: set<int>, uncounted: int) {
    && floating <= NewIds(s.mapInfo)
    && RandomOk(s.mapInfo, s.vRandom)
    && IdsOk(s.mapInfo, s.nIdCount)
    && NewTableOk(s.cfg, s.mapInfo, s.vvNew)
    && RefsOk(s.mapInfo, s.vvNew, floating)
    && TriedTableOk(s.cfg, s.mapInfo, s.vvTried)
    && CountsOk(s.mapInfo, s.nNew, s.nTried, uncounted)
  }

  /** The entries, the order, both tables and both counters agree: all that the asserts of the source rely on. */
  ghost predicate Sound(s: State) {
    Between(s, {}, 0)
  }

  /** The index by address is right as well. */
  ghost predicate Indexed(s: State) {
    AddrOk(s.cfg, s.mapInfo, s.mapAddr)
  }

  /** The consistency that `Check_` looks for, on the normalised address. */
  ghost predicate Inv(s: State) {
    Sound(s) && Indexed(s)
  }

  // ----- The building blocks -----

  /** `CAddrMan::Find`. */
  function Find(s: State, a: Service): Option<int> {
    var key := Normal(s.cfg, a);
    if key in s.mapAddr && s.mapAddr[key] in s.mapInfo then Some(s.mapAddr[key]) else None
  }

  function Update(s: State, id: int, info: Info): State {
    s.(mapInfo := s.mapInfo[id := info])
  }

  /** `CAddrMan::Create`; the new id is the old nIdCount. */
  function Create(s: State, a: Address, source: NetAddr): State {
    var id := s.nIdCount;
    s.(
    nIdCount := id + 1,
    mapInfo := s.mapInfo[id := Info(a, source, 0, 0, 0, false, |s.vRandom|, 0, 0)],
    mapAddr := s.mapAddr[Normal(s.cfg, a.service) := id],
    vRandom := s.vRandom + [id])
  }

  /** `CAddrMan::SwapRandom`. */
  function SwapRandom(s: State, i: nat, j: nat): State
    requires i < |s.vRandom| && j < |s.vRandom|
    requires s.vRandom[i] in s.mapInfo && s.vRandom[j] in s.mapInfo
  {
    if i == j then s
    else
      var a := s.vRandom[i];
      var b := s.vRandom[j];
      var m := s.mapInfo[a := s.mapInfo[a].(nRandomPos := j)];
      s.(
      mapInfo := m[b := m[b].(nRandomPos := i)],
      vRandom := s.vRandom[i := b][j := a])
  }

  /** What the asserts at the top of `Delete` demand. */
  ghost predicate Deletable(s: State, id: int) {
    && id in s.mapInfo
    && !s.mapInfo[id].fInTried
    && s.mapInfo[id].nRefCount == 0
    && RandomOk(s.mapInfo, s.vRandom)
  }

  /** `CAddrMan::Delete`. */
  ghost function Delete(s: State, id: int): State
    requires Deletable(s, id)
  {
    DropLast(SwapRandom(s, s.mapInfo[id].nRandomPos, |s.vRandom| - 1), id)
  }

  /** The end of `Delete`: pop vRandom and forget the entry. */
  function DropLast(s: State, id: int): State
    requires id in s.mapInfo && s.vRandom != []
  {
    s.(
    vRandom := s.vRandom[..|s.vRandom| - 1],
    mapAddr := s.mapAddr - {Normal(s.cfg, s.mapInfo[id].addr.service)},
    mapInfo := s.mapInfo - {id},
    nNew := s.nNew - 1)
  }

  // ----- The building blocks keep the invariant -----

  /** The same entries with the same addresses. */
  ghost predicate SameServices(m: map<int, Info>, m': map<int, Info>) {
    m.Keys == m'.Keys && forall id :: id in m ==> m[id].addr.service == m'[id].addr.service
  }

  /** ... and on the same side of the tried line. */
  ghost predicate SameAddrs(m: map<int, Info>, m': map<int, Info>) {
    SameServices(m, m') && forall id :: id in m ==> m[id].fInTried == m'[id].fInTried
  }

  /** The two maps differ only in statistics and in nRandomPos. */
  ghost predicate Alike(m: map<int, Info>, m': map<int, Info>) {
    SameAddrs(m, m') && forall id :: id in m ==> m[id].nRefCount == m'[id].nRefCount
  }

  /** A change that leaves addresses, the tried table and the counters alone. */
  lemma SameAddrsKeeps(s: State, s': State, floating: set<int>, floating': set<int>, uncounted: int)
    requires Between(s, floating, uncounted)
    requires s' == s.(mapInfo := s'.mapInfo, vRandom := s'.vRandom, vvNew := s'.vvNew, nLastGood := s'.nLastGood)
    requires SameAddrs(s.mapInfo, s'.mapInfo)
    requires floating' <= NewIds(s.mapInfo)
    requires RandomOk(s'.mapInfo, s'.vRandom)
    requires NewTableOk(s.cfg, s.mapInfo, s'.vvNew)
    requires RefsOk(s'.mapInfo, s'.vvNew, floating')
    ensures Between(s', floating', uncounted)
    ensures Indexed(s) ==> Indexed(s')
  {
    AlikeIds(s.mapInfo, s'.mapInfo);
    AlikeIndexes(s, s');
    AlikeNewTable(s.cfg, s.mapInfo, s'.mapInfo, s'.vvNew);
    AlikeTriedTable(s.cfg, s.mapInfo, s'.mapInfo, s.vvTried);
  }

  /** Statistics and the order of vRandom are free to change. */
  lemma AlikeKeeps(s: State, s': State, floating: set<int>, uncounted: int)
    requires Between(s, floating, uncounted)
    requires s' == s.(mapInfo := s'.mapInfo, vRandom := s'.vRandom, nLastGood := s'.nLastGood)
    requires Alike(s.mapInfo, s'.mapInfo)
    requires RandomOk(s'.mapInfo, s'.vRandom)
    ensures Between(s', floating, uncounted)
    ensures Indexed(s) ==> Indexed(s')
  {
    AlikeRefs(s.mapInfo, s'.mapInfo, s.vvNew, floating);
    SameAddrsKeeps(s, s', floating, floating, uncounted);
  }

  lemma AlikeRefs(m: map<int, Info>, m': map<int, Info>, t: Table, floating: set<int>)
    requires Alike(m, m') && RefsOk(m, t, floating)
    ensures RefsOk(m', t, floating)
  {
  }

  /** Rewriting one entry without moving it. */
  lemma UpdateOne(m: map<int, Info>, vRandom: seq<int>, id: int, info: Info)
    requires id in m && RandomOk(m, vRandom)
    requires info.addr.service == m[id].addr.service
    requires info.fInTried == m[id].fInTried
    requires info.nRandomPos == m[id].nRandomPos
    ensures SameAddrs(m, m[id := info]) && RandomOk(m[id := info], vRandom)
    ensures info.nRefCount == m[id].nRefCount ==> Alike(m, m[id := info])
  {
  }

  lemma AlikeIndexes(s: State, s': State)
    requires SameServices(s.mapInfo, s'.mapInfo) && IdsOk(s.mapInfo, s.nIdCount)
    requires s'.cfg == s.cfg && s'.mapAddr == s.mapAddr && s'.nIdCount == s.nIdCount
    ensures IdsOk(s'.mapInfo, s'.nIdCount) && (Indexed(s) ==> Indexed(s'))
  {
  }

  lemma AlikeNewTable(c: Config, m: map<int, Info>, m': map<int, Info>, t: Table)
    requires SameServices(m, m') && NewTableOk(c, m, t)
    ensures NewTableOk(c, m', t)
  {
    forall slot | slot in t
      ensures t[slot] in m' && slot.pos == BucketPosition(c, m'[t[slot]].addr.service, true, slot.bucket)
    {
      var id := t[slot];
      assert id in m;
      assert m[id].addr.service == m'[id].addr.service;
    }
  }

  lemma AlikeTriedTable(c: Config, m: map<int, Info>, m': map<int, Info>, t: Table)
    requires SameAddrs(m, m') && TriedTableOk(c, m, t)
    ensures TriedTableOk(c, m', t)
  {
    forall slot | slot in t
      ensures t[slot] in m' && m'[t[slot]].fInTried && slot == TriedSlot(c, m'[t[slot]].addr.service)
    {
      var id := t[slot];
      assert id in m;
      assert m[id].fInTried == m'[id].fInTried && m[id].addr.service == m'[id].addr.service;
    }
  }

  lemma AlikeIds(m: map<int, Info>, m': map<int, Info>)
    requires SameAddrs(m, m')
    ensures NewIds(m') == NewIds(m) && TriedIds(m') == TriedIds(m)
  {
    forall id
      ensures id in NewIds(m) <==> id in NewIds(m')
      ensures id in TriedIds(m) <==> id in TriedIds(m')
    {
      assert id in m <==> id in m';
    }
  }

  /** Swapping two positions keeps vRandom and nRandomPos inverse to each other. */
  lemma SwapRandomPermutes(s: State, i: nat, j: nat)
    requires i < |s.vRandom| && j < |s.vRandom|
    requires RandomOk(s.mapInfo, s.vRandom)
    ensures var s' := SwapRandom(s, i, j);
            && RandomOk(s'.mapInfo, s'.vRandom)
            && s'.vRandom == s.vRandom[i := s.vRandom[j]][j := s.vRandom[i]]
  {
    if i != j {
      assert s.vRandom[i] != s.vRandom[j] by {
        assert s.mapInfo[s.vRandom[i]].nRandomPos == i && s.mapInfo[s.vRandom[j]].nRandomPos == j;
      }
      SwappedRandomOk(s.mapInfo, s.vRandom, i, j);
    } else {
      assert s.vRandom == s.vRandom[i := s.vRandom[j]][j := s.vRandom[i]];
    }
  }

  lemma SwappedRandomOk(m: map<int, Info>, v: seq<int>, i: nat, j: nat)
    requires RandomOk(m, v) && i < |v| && j < |v| && i != j && v[i] != v[j]
    ensures RandomOk(m[v[i] := m[v[i]].(nRandomPos := j)][v[j] := m[v[j]].(nRandomPos := i)], v[i := v[j]][j := v[i]])
  {
  }

  lemma CreateKeeps(s: State, a: Address, source: NetAddr, floating: set<int>, uncounted: int)
    requires Between(s, floating, uncounted)
    ensures Between(Create(s, a, source), floating + {s.nIdCount}, uncounted + 1)
    ensures Indexed(s) && Normal(s.cfg, a.service) !in s.mapAddr ==> Indexed(Create(s, a, source))
  {
    var id := s.nIdCount;
    var s' := Create(s, a, source);
    NewEntryIds(s.mapInfo, id, s'.mapInfo[id]);
    NewEntryIndexes(s, a, source);
    NewEntryTables(s.cfg, s.mapInfo, id, s'.mapInfo[id], s.vvNew, s.vvTried, floating);
  }

  lemma NewEntryTables(c: Config, m: map<int, Info>, id: int, info: Info, vvNew: Table, vvTried: Table,
                       floating: set<int>)
    requires id !in m && !info.fInTried && info.nRefCount == 0
    requires NewTableOk(c, m, vvNew) && RefsOk(m, vvNew, floating) && TriedTableOk(c, m, vvTried)
    ensures NewTableOk(c, m[id := info], vvNew)
    ensures RefsOk(m[id := info], vvNew, floating + {id})
    ensures TriedTableOk(c, m[id := info], vvTried)
  {
    assert Refs(vvNew, id) == {};
  }

  lemma NewEntryIds(m: map<int, Info>, id: int, info: Info)
    requires id !in m && !info.fInTried
    ensures NewIds(m[id := info]) == NewIds(m) + {id} && TriedIds(m[id := info]) == TriedIds(m)
  {
  }

  lemma NewEntryIndexes(s: State, a: Address, source: NetAddr)
    requires RandomOk(s.mapInfo, s.vRandom) && IdsOk(s.mapInfo, s.nIdCount)
    ensures var s' := Create(s, a, source);
            && RandomOk(s'.mapInfo, s'.vRandom)
            && IdsOk(s'.mapInfo, s'.nIdCount)
            && (Indexed(s) && Normal(s.cfg, a.service) !in s.mapAddr ==> Indexed(s'))
  {
    var id := s.nIdCount;
    var info := Info(a, source, 0, 0, 0, false, |s.vRandom|, 0, 0);
    NewEntryRandom(s.mapInfo, s.vRandom, id, info);
    if Indexed(s) && Normal(s.cfg, a.service) !in s.mapAddr {
      NewEntryAddr(s.cfg, s.mapInfo, s.mapAddr, id, info);
    }
  }

  lemma NewEntryRandom(m: map<int, Info>, v: seq<int>, id: int, info: Info)
    requires RandomOk(m, v) && id !in m && info.nRandomPos == |v|
    ensures RandomOk(m[id := info], v + [id])
  {
  }

  lemma NewEntryAddr(c: Config, m: map<int, Info>, mapAddr: map<Service, int>, id: int, info: Info)
    requires AddrOk(c, m, mapAddr) && id !in m && Normal(c, info.addr.service) !in mapAddr
    ensures AddrOk(c, m[id := info], mapAddr[Normal(c, info.addr.service) := id])
  {
  }

  lemma FloatingDeletable(s: State, id: int, floating: set<int>, uncounted: int)
    requires Between(s, floating, uncounted)
    requires id in floating
    ensures Deletable(s, id)
  {
  }

  /** The entry is gone, and no other entry has changed except for its place in vRandom. */
  ghost predicate Spared(s: State, s': State, id: int)
    requires id in s.mapInfo
  {
    && Without(s.mapInfo, s'.mapInfo, id)
    && Survivors(s, s')
    && s' == s.(mapInfo := s'.mapInfo, vRandom := s'.vRandom, nNew := s.nNew - 1,
                mapAddr := s.mapAddr - {Normal(s.cfg, s.mapInfo[id].addr.service)})
  }

  lemma DeleteSpares(s: State, id: int)
    requires Deletable(s, id)
    ensures Spared(s, Delete(s, id), id)
  {
    var pos, last := s.mapInfo[id].nRandomPos, |s.vRandom| - 1;
    SwapInfos(s, pos, last);
    DropSpares(s, SwapRandom(s, pos, last), Delete(s, id), id);
  }

  lemma DropSpares(s: State, s1: State, s': State, id: int)
    requires s1.mapInfo.Keys == s.mapInfo.Keys && id in s.mapInfo && s1.vRandom != []
    requires forall x :: x in s.mapInfo ==> s1.mapInfo[x] == s.mapInfo[x].(nRandomPos := s1.mapInfo[x].nRandomPos)
    requires s1 == s.(mapInfo := s1.mapInfo, vRandom := s1.vRandom) && s' == DropLast(s1, id)
    ensures Spared(s, s', id)
  {
  }

  /** The map with one entry less and the others as far as the tables can see. */
  ghost predicate Without(m: map<int, Info>, m': map<int, Info>, id: int) {
    && m'.Keys == m.Keys - {id}
    && forall x :: x in m' ==>
         && m'[x].addr.service == m[x].addr.service
         && m'[x].fInTried == m[x].fInTried
         && m'[x].nRefCount == m[x].nRefCount
  }

  lemma DeleteRandom(s: State, id: int)
    requires Deletable(s, id)
    ensures RandomOk(Delete(s, id).mapInfo, Delete(s, id).vRandom)
  {
    var pos, last := s.mapInfo[id].nRandomPos, |s.vRandom| - 1;
    SwapRandomPermutes(s, pos, last);
    PopRandom(SwapRandom(s, pos, last), Delete(s, id), id);
  }

  lemma PopRandom(s: State, s': State, id: int)
    requires RandomOk(s.mapInfo, s.vRandom) && s.vRandom != [] && s.vRandom[|s.vRandom| - 1] == id
             && s' == DropLast(s, id)
    ensures RandomOk(s'.mapInfo, s'.vRandom)
  {
  }

  lemma WithoutIds(m: map<int, Info>, m': map<int, Info>, id: int)
    requires Without(m, m', id) && id in m && !m[id].fInTried
    ensures NewIds(m') == NewIds(m) - {id} && TriedIds(m') == TriedIds(m)
  {
    forall x
      ensures x in NewIds(m') <==> x in NewIds(m) - {id}
      ensures x in TriedIds(m') <==> x in TriedIds(m)
    {
      assert x in m' <==> x in m && x != id;
    }
  }

  lemma WithoutIndexes(c: Config, m: map<int, Info>, m': map<int, Info>, id: int, mapAddr: map<Service, int>,
                       nIdCount: int)
    requires Without(m, m', id) && id in m
    requires IdsOk(m, nIdCount)
    ensures IdsOk(m', nIdCount) && (AddrOk(c, m, mapAddr) ==> AddrOk(c, m', mapAddr - {Normal(c, m[id].addr.service)}))
  {
  }

  lemma WithoutTables(c: Config, m: map<int, Info>, m': map<int, Info>, id: int, vvNew: Table, vvTried: Table,
                      floating: set<int>)
    requires Without(m, m', id) && id in m && !m[id].fInTried && m[id].nRefCount == 0
    requires NewTableOk(c, m, vvNew) && RefsOk(m, vvNew, floating) && TriedTableOk(c, m, vvTried)
    ensures NewTableOk(c, m', vvNew)
    ensures RefsOk(m', vvNew, floating - {id})
    ensures TriedTableOk(c, m', vvTried)
  {
    assert Refs(vvNew, id) == {};
    forall slot | slot in vvNew
      ensures vvNew[slot] in m' && slot.pos == BucketPosition(c, m'[vvNew[slot]].addr.service, true, slot.bucket)
    {
      var x := vvNew[slot];
      assert slot in Refs(vvNew, x);
      assert x in m && x in m' && m'[x].addr.service == m[x].addr.service;
    }
    forall slot | slot in vvTried
      ensures vvTried[slot] in m' && m'[vvTried[slot]].fInTried && slot == TriedSlot(c, m'[vvTried[slot]].addr.service)
    {
      var x := vvTried[slot];
      assert x in m && x in m' && m'[x].addr.service == m[x].addr.service && m'[x].fInTried;
    }
  }

  lemma DeleteKeeps(s: State, id: int, floating: set<int>, uncounted: int)
    requires Between(s, floating, uncounted)
    requires id in floating
    ensures Deletable(s, id)
    ensures Between(Delete(s, id), floating - {id}, uncounted)
    ensures Indexed(s) ==> Indexed(Delete(s, id))
  {
    FloatingDeletable(s, id, floating, uncounted);
    DeleteSpares(s, id);
    DeleteRandom(s, id);
    var m' := Delete(s, id).mapInfo;
    WithoutIds(s.mapInfo, m', id);
    WithoutIndexes(s.cfg, s.mapInfo, m', id, s.mapAddr, s.nIdCount);
    WithoutTables(s.cfg, s.mapInfo, m', id, s.vvNew, s.vvTried, floating);
  }

  // ----- Entering and leaving the new table -----

  /** Take one slot away from the entry it holds. */
  function DropRef(s: State, slot: Slot): State
    requires slot in s.vvNew && s.vvNew[slot] in s.mapInfo
  {
    var id := s.vvNew[slot];
    Update(s, id, s.mapInfo[id].(nRefCount := s.mapInfo[id].nRefCount - 1)).(vvNew := s.vvNew - {slot})
  }

  /** Give one free slot to an entry. */
  function AddRef(s: State, slot: Slot, id: int): State
    requires id in s.mapInfo
  {
    Update(s, id, s.mapInfo[id].(nRefCount := s.mapInfo[id].nRefCount + 1)).(vvNew := s.vvNew[slot := id])
  }

  lemma DropRefKeeps(s: State, slot: Slot, floating: set<int>, uncounted: int)
    requires Between(s, floating, uncounted)
    requires slot in s.vvNew
    ensures var id := s.vvNew[slot];
            && id in s.mapInfo && id !in floating && !s.mapInfo[id].fInTried && s.mapInfo[id].nRefCount > 0
            && Between(DropRef(s, slot), if s.mapInfo[id].nRefCount == 1 then floating + {id} else floating, uncounted)
    ensures Indexed(s) ==> Indexed(DropRef(s, slot))
  {
    var id := s.vvNew[slot];
    DropRefCounts(s.mapInfo, s.vvNew, slot, floating);
    UpdateOne(s.mapInfo, s.vRandom, id, DropRef(s, slot).mapInfo[id]);
    SameAddrsKeeps(s, DropRef(s, slot), floating,
                   if s.mapInfo[id].nRefCount == 1 then floating + {id} else floating, uncounted);
  }

  lemma DropRefCounts(m: map<int, Info>, t: Table, slot: Slot, floating: set<int>)
    requires RefsOk(m, t, floating)
    requires slot in t && t[slot] in m
    ensures var id := t[slot];
            && m[id].nRefCount > 0
            && RefsOk(m[id := m[id].(nRefCount := m[id].nRefCount - 1)], t - {slot},
                      if m[id].nRefCount == 1 then floating + {id} else floating)
  {
    var id := t[slot];
    var m' := m[id := m[id].(nRefCount := m[id].nRefCount - 1)];
    assert slot in Refs(t, id);
    forall x | x in m'
      ensures m'[x].nRefCount == |Refs(t - {slot}, x)|
    {
      RefsWithout(t, slot, x);
    }
  }

  lemma RefsWithout(t: Table, slot: Slot, id: int)
    requires slot in t
    ensures |Refs(t - {slot}, id)| == |Refs(t, id)| - (if t[slot] == id then 1 else 0)
  {
    assert Refs(t - {slot}, id) == Refs(t, id) - {slot};
  }

  lemma AddRefKeeps(s: State, slot: Slot, id: int, floating: set<int>, uncounted: int)
    requires Between(s, floating, uncounted)
    requires id in s.mapInfo && !s.mapInfo[id].fInTried && s.mapInfo[id].nRefCount < NEW_BUCKETS_PER_ADDRESS
    requires slot !in s.vvNew && slot.bucket < NEW_BUCKET_COUNT
    requires slot.pos == BucketPosition(s.cfg, s.mapInfo[id].addr.service, true, slot.bucket)
    ensures Between(AddRef(s, slot, id), floating - {id}, uncounted)
    ensures Indexed(s) ==> Indexed(AddRef(s, slot, id))
  {
    AddRefCounts(s.mapInfo, s.vvNew, slot, id, floating);
    UpdateOne(s.mapInfo, s.vRandom, id, AddRef(s, slot, id).mapInfo[id]);
    SameAddrsKeeps(s, AddRef(s, slot, id), floating, floating - {id}, uncounted);
  }

  lemma AddRefCounts(m: map<int, Info>, t: Table, slot: Slot, id: int, floating: set<int>)
    requires RefsOk(m, t, floating)
    requires slot !in t && id in m && !m[id].fInTried && m[id].nRefCount < NEW_BUCKETS_PER_ADDRESS
    ensures RefsOk(m[id := m[id].(nRefCount := m[id].nRefCount + 1)], t[slot := id], floating - {id})
  {
    var m' := m[id := m[id].(nRefCount := m[id].nRefCount + 1)];
    var t' := t[slot := id];
    assert t' - {slot} == t;
    forall x | x in m'
      ensures m'[x].nRefCount == |Refs(t', x)|
    {
      RefsWithout(t', slot, x);
    }
  }

  ghost predicate Clearable(s: State, slot: Slot) {
    slot in s.vvNew ==>
      && s.vvNew[slot] in s.mapInfo
      && !s.mapInfo[s.vvNew[slot]].fInTried
      && RandomOk(s.mapInfo, s.vRandom)
  }

  /** `CAddrMan::ClearNew`: free a new slot; an entry that held no other slot is deleted. */
  ghost function ClearNew(s: State, slot: Slot): State
    requires Clearable(s, slot)
  {
    if slot !in s.vvNew then s
    else
      var id := s.vvNew[slot];
      var s1 := DropRef(s, slot);
      if s1.mapInfo[id].nRefCount == 0 then Delete(s1, id) else s1
  }

  /** The same entry but for its place in vRandom and its references. */
  ghost predicate SameEntry(info: Info, info': Info) {
    info' == info.(nRandomPos := info'.nRandomPos, nRefCount := info'.nRefCount)
  }

  /** The entries of `s'` are entries of `s`. */
  ghost predicate Survivors(s: State, s': State) {
    forall id :: id in s'.mapInfo ==> id in s.mapInfo && SameEntry(s.mapInfo[id], s'.mapInfo[id])
  }

  lemma ClearNewKeeps(s: State, slot: Slot, floating: set<int>, uncounted: int)
    requires Between(s, floating, uncounted)
    ensures Clearable(s, slot)
    ensures Between(ClearNew(s, slot), floating, uncounted)
    ensures Indexed(s) ==> Indexed(ClearNew(s, slot))
  {
    if slot in s.vvNew {
      DropRefKeeps(s, slot, floating, uncounted);
      var id := s.vvNew[slot];
      var s1 := DropRef(s, slot);
      if s1.mapInfo[id].nRefCount == 0 {
        DeleteKeeps(s1, id, floating + {id}, uncounted);
        assert floating + {id} - {id} == floating;
      }
    }
  }

  /** What ClearNew leaves alone: everything but the slot and, at most, the entry it held. */
  lemma ClearNewSpares(s: State, slot: Slot)
    requires Clearable(s, slot)
    ensures var s' := ClearNew(s, slot);
            && s'.cfg == s.cfg && s'.vvTried == s.vvTried
            && s'.vvNew == s.vvNew - {slot}
            && Survivors(s, s')
            && forall id :: id in s.mapInfo && !(slot in s.vvNew && s.vvNew[slot] == id) ==>
                 id in s'.mapInfo && s'.mapInfo[id].nRefCount == s.mapInfo[id].nRefCount
  {
    if slot in s.vvNew {
      var id := s.vvNew[slot];
      var s1 := DropRef(s, slot);
      if s1.mapInfo[id].nRefCount == 0 {
        DeleteSpares(s1, id);
      }
    } else {
      assert s.vvNew - {slot} == s.vvNew;
    }
  }

  // ----- Between the new and the tried table -----

  /** Take an entry out of every new slot: the loop of `MakeTried`. */
  ghost function Unlist(s: State, id: int): State
    requires id in s.mapInfo
  {
    Update(s, id, s.mapInfo[id].(nRefCount := 0)).(
    vvNew := s.vvNew - Refs(s.vvNew, id),
    nNew := s.nNew - 1)
  }

  /** Take the entry in a tried slot out of the tried table. */
  function Untry(s: State, slot: Slot): State
    requires slot in s.vvTried && s.vvTried[slot] in s.mapInfo
  {
    var id := s.vvTried[slot];
    Update(s, id, s.mapInfo[id].(fInTried := false)).(vvTried := s.vvTried - {slot}, nTried := s.nTried - 1)
  }

  /** Put an entry into a free tried slot. */
  function Try(s: State, slot: Slot, id: int): State
    requires id in s.mapInfo
  {
    Update(s, id, s.mapInfo[id].(fInTried := true)).(vvTried := s.vvTried[slot := id], nTried := s.nTried + 1)
  }

  lemma UnlistKeeps(s: State, id: int)
    requires Sound(s) && id in s.mapInfo && !s.mapInfo[id].fInTried
    ensures Between(Unlist(s, id), {id}, 1)
    ensures Indexed(s) ==> Indexed(Unlist(s, id))
  {
    var s' := Unlist(s, id).(nNew := s.nNew);
    UnlistCounts(s.mapInfo, s.vvNew, id);
    UpdateOne(s.mapInfo, s.vRandom, id, s'.mapInfo[id]);
    SameAddrsKeeps(s, s', {}, {id}, 0);
    Recount(s', {id}, 0, s.nNew - 1, 1);
  }

  lemma Recount(s: State, floating: set<int>, uncounted: int, nNew: int, uncounted': int)
    requires Between(s, floating, uncounted)
    requires nNew + uncounted' == s.nNew + uncounted
    ensures Between(s.(nNew := nNew), floating, uncounted')
  {
  }

  lemma UnlistCounts(m: map<int, Info>, t: Table, id: int)
    requires RefsOk(m, t, {}) && id in m && !m[id].fInTried
    ensures RefsOk(m[id := m[id].(nRefCount := 0)], t - Refs(t, id), {id})
  {
    var m' := m[id := m[id].(nRefCount := 0)];
    var t' := t - Refs(t, id);
    forall x | x in m'
      ensures m'[x].nRefCount == |Refs(t', x)|
    {
      assert Refs(t', x) == if x == id then {} else Refs(t, x);
    }
  }

  /** Changing the side of one entry. */
  lemma FlipOne(m: map<int, Info>, vRandom: seq<int>, id: int, fInTried: bool)
    requires id in m && RandomOk(m, vRandom) && m[id].fInTried != fInTried
    ensures var m' := m[id := m[id].(fInTried := fInTried)];
            && SameServices(m, m') && RandomOk(m', vRandom)
            && NewIds(m') == (if fInTried then NewIds(m) - {id} else NewIds(m) + {id})
            && |NewIds(m')| == |NewIds(m)| + (if fInTried then -1 else 1)
            && |TriedIds(m')| == |TriedIds(m)| + (if fInTried then 1 else -1)
  {
    var m' := m[id := m[id].(fInTried := fInTried)];
    assert NewIds(m') == (if fInTried then NewIds(m) - {id} else NewIds(m) + {id});
    assert TriedIds(m') == (if fInTried then TriedIds(m) + {id} else TriedIds(m) - {id});
  }

  lemma UntryKeeps(s: State, slot: Slot, floating: set<int>, uncounted: int)
    requires Between(s, floating, uncounted)
    requires slot in s.vvTried
    ensures var id := s.vvTried[slot];
            && id in s.mapInfo && s.mapInfo[id].fInTried && s.mapInfo[id].nRefCount == 0 && id !in floating
            && Between(Untry(s, slot), floating + {id}, uncounted + 1)
    ensures Indexed(s) ==> Indexed(Untry(s, slot))
  {
    var id := s.vvTried[slot];
    var s' := Untry(s, slot);
    FlipOne(s.mapInfo, s.vRandom, id, false);
    AlikeIndexes(s, s');
    AlikeNewTable(s.cfg, s.mapInfo, s'.mapInfo, s.vvNew);
    UntryTables(s.cfg, s.mapInfo, s.vvNew, s.vvTried, slot, floating);
  }

  lemma UntryTables(c: Config, m: map<int, Info>, vvNew: Table, vvTried: Table, slot: Slot, floating: set<int>)
    requires RefsOk(m, vvNew, floating) && TriedTableOk(c, m, vvTried)
    requires slot in vvTried
    ensures var id := vvTried[slot];
            var m' := m[id := m[id].(fInTried := false)];
            && m[id].nRefCount == 0
            && RefsOk(m', vvNew, floating + {id})
            && TriedTableOk(c, m', vvTried - {slot})
  {
    var id := vvTried[slot];
    assert id in m && m[id].fInTried;
  }

  lemma TryKeeps(s: State, slot: Slot, id: int, floating: set<int>, uncounted: int)
    requires Between(s, floating, uncounted)
    requires id in floating
    requires slot == TriedSlot(s.cfg, s.mapInfo[id].addr.service) && slot !in s.vvTried
    ensures Between(Try(s, slot, id), floating - {id}, uncounted - 1)
    ensures Indexed(s) ==> Indexed(Try(s, slot, id))
  {
    var s' := Try(s, slot, id);
    FlipOne(s.mapInfo, s.vRandom, id, true);
    AlikeIndexes(s, s');
    AlikeNewTable(s.cfg, s.mapInfo, s'.mapInfo, s.vvNew);
    TryTables(s.cfg, s.mapInfo, s.vvNew, s.vvTried, id, floating);
  }

  lemma TryTables(c: Config, m: map<int, Info>, vvNew: Table, vvTried: Table, id: int, floating: set<int>)
    requires RefsOk(m, vvNew, floating) && TriedTableOk(c, m, vvTried)
    requires id in m && id in floating && !m[id].fInTried
    requires TriedSlot(c, m[id].addr.service) !in vvTried
    ensures var m' := m[id := m[id].(fInTried := true)];
            && RefsOk(m', vvNew, floating - {id})
            && TriedTableOk(c, m', vvTried[TriedSlot(c, m[id].addr.service) := id])
  {
  }

  /** Clear a new slot and give it to an entry that holds none; the entry counts as new from now on. */
  ghost function Enter(s: State, slot: Slot, id: int): State
    requires Clearable(s, slot) && id in s.mapInfo && !(slot in s.vvNew && s.vvNew[slot] == id)
  {
    ClearNewSpares(s, slot);
    AddRef(ClearNew(s, slot), slot, id).(nNew := ClearNew(s, slot).nNew + 1)
  }

  lemma EnterKeeps(s: State, slot: Slot, moved: int, floating: set<int>, uncounted: int)
    requires Between(s, floating, uncounted) && moved in floating
    requires slot == NewSlot(s.cfg, s.mapInfo[moved].addr.service, s.mapInfo[moved].source)
    ensures Clearable(s, slot) && !(slot in s.vvNew && s.vvNew[slot] == moved)
    ensures Between(Enter(s, slot, moved), floating - {moved}, uncounted - 1)
    ensures Indexed(s) ==> Indexed(Enter(s, slot, moved))
  {
    HoldsNoSlot(s.mapInfo, s.vvNew, floating, moved, slot);
    ClearNewKeeps(s, slot, floating, uncounted);
    ClearNewSpares(s, slot);
    var s1 := ClearNew(s, slot);
    AddRefKeeps(s1, slot, moved, floating, uncounted);
    Recount(AddRef(s1, slot, moved), floating - {moved}, uncounted, s1.nNew + 1, uncounted - 1);
  }

  lemma HoldsNoSlot(m: map<int, Info>, t: Table, floating: set<int>, id: int, slot: Slot)
    requires RefsOk(m, t, floating) && id in m && id in floating
    ensures !(slot in t && t[slot] == id)
  {
    assert Refs(t, id) == {};
    assert slot !in Refs(t, id);
  }

  /** Everything but the slot, the entry that goes there and at most the one that was there. */
  lemma EnterSpares(s: State, slot: Slot, moved: int)
    requires Clearable(s, slot) && moved in s.mapInfo && !(slot in s.vvNew && s.vvNew[slot] == moved)
    ensures var s' := Enter(s, slot, moved);
            && s'.cfg == s.cfg && s'.vvTried == s.vvTried && Survivors(s, s')
            && forall id :: id in s.mapInfo && !(slot in s.vvNew && s.vvNew[slot] == id) ==> id in s'.mapInfo
  {
    ClearNewSpares(s, slot);
  }

  /**
    Make room in a tried slot: its entry goes back to the new table, whose slot is
    cleared for it (src/addrman.cpp:181-202).  `id` is the entry on its way to tried.
   */
  ghost function Evict(s: State, slot: Slot, id: int): State
    requires Between(s, {id}, 1) && slot in s.vvTried
  {
    UntryKeeps(s, slot, {id}, 1);
    var moved := s.vvTried[slot];
    var newSlot := NewSlot(s.cfg, s.mapInfo[moved].addr.service, s.mapInfo[moved].source);
    EnterKeeps(Untry(s, slot), newSlot, moved, {id} + {moved}, 2);
    Enter(Untry(s, slot), newSlot, moved)
  }

  lemma EvictKeeps(s: State, slot: Slot, id: int)
    requires Between(s, {id}, 1) && slot in s.vvTried
    ensures Between(Evict(s, slot, id), {id}, 1)
    ensures var s' := Evict(s, slot, id);
            && s'.cfg == s.cfg && s'.vvTried == s.vvTried - {slot}
            && id in s'.mapInfo && SameEntry(s.mapInfo[id], s'.mapInfo[id])
    ensures Indexed(s) ==> Indexed(Evict(s, slot, id))
  {
    UntryKeeps(s, slot, {id}, 1);
    var moved := s.vvTried[slot];
    var s1 := Untry(s, slot);
    var newSlot := NewSlot(s.cfg, s.mapInfo[moved].addr.service, s.mapInfo[moved].source);
    EnterKeeps(s1, newSlot, moved, {id} + {moved}, 2);
    assert {id} + {moved} - {moved} == {id};
    HoldsNoSlot(s1.mapInfo, s1.vvNew, {id} + {moved}, id, newSlot);
    EnterSpares(s1, newSlot, moved);
  }

  /** `CAddrMan::MakeTried`. */
  ghost function MakeTried(s: State, id: int): State
    requires Sound(s) && id in s.mapInfo && !s.mapInfo[id].fInTried
  {
    UnlistKeeps(s, id);
    var s1 := Unlist(s, id);
    var slot := TriedSlot(s.cfg, s.mapInfo[id].addr.service);
    if slot in s1.vvTried then
      EvictKeeps(s1, slot, id);
      Try(Evict(s1, slot, id), slot, id)
    else
      Try(s1, slot, id)
  }

  lemma MakeTriedKeeps(s: State, id: int)
    requires Sound(s) && id in s.mapInfo && !s.mapInfo[id].fInTried
    ensures Sound(MakeTried(s, id)) && (Indexed(s) ==> Indexed(MakeTried(s, id)))
    ensures id in MakeTried(s, id).mapInfo && SameEntry(s.mapInfo[id].(fInTried := true), MakeTried(s, id).mapInfo[id])
    ensures MakeTried(s, id).cfg == s.cfg
  {
    UnlistKeeps(s, id);
    var s1 := Unlist(s, id);
    var slot := TriedSlot(s.cfg, s.mapInfo[id].addr.service);
    if slot in s1.vvTried {
      EvictTryKeeps(s1, slot, id);
    } else {
      TryLastKeeps(s1, slot, id);
    }
  }

  lemma TryLastKeeps(s: State, slot: Slot, id: int)
    requires Between(s, {id}, 1) && slot == TriedSlot(s.cfg, s.mapInfo[id].addr.service) && slot !in s.vvTried
    ensures Sound(Try(s, slot, id)) && (Indexed(s) ==> Indexed(Try(s, slot, id)))
  {
    TryKeeps(s, slot, id, {id}, 1);
    assert {id} - {id} == {};
  }

  lemma EvictTryKeeps(s: State, slot: Slot, id: int)
    requires Between(s, {id}, 1) && slot == TriedSlot(s.cfg, s.mapInfo[id].addr.service) && slot in s.vvTried
    ensures id in Evict(s, slot, id).mapInfo && SameEntry(s.mapInfo[id], Evict(s, slot, id).mapInfo[id])
            && Evict(s, slot, id).cfg == s.cfg
    ensures Sound(Try(Evict(s, slot, id), slot, id)) && (Indexed(s) ==> Indexed(Try(Evict(s, slot, id), slot, id)))
  {
    EvictKeeps(s, slot, id);
    TryLastKeeps(Evict(s, slot, id), slot, id);
  }

  // ----- The public operations -----

  /** `CAddrMan::Good_`. */
  ghost function Good(s: State, a: Service, nTime: int): State
    requires Sound(s)
  {
    var s0 := s.(nLastGood := nTime);
    var found := Find(s, a);
    if found.None? || s.mapInfo[found.value].addr.service != a then s0
    else
      var id := found.value;
      var s1 := Update(s0, id, s.mapInfo[id].(nLastSuccess := nTime, nLastTry := nTime, nAttempts := 0));
      if s.mapInfo[id].fInTried then s1
      else
        StatsKeep(s, s1, id);
        MakeTried(s1, id)
  }

  /** Rewriting the statistics of one entry. */
  lemma StatsKeep(s: State, s': State, id: int)
    requires Sound(s) && id in s.mapInfo && id in s'.mapInfo
    requires s' == s.(mapInfo := s.mapInfo[id := s'.mapInfo[id]], nLastGood := s'.nLastGood)
    requires s'.mapInfo[id].addr.service == s.mapInfo[id].addr.service
    requires s'.mapInfo[id].fInTried == s.mapInfo[id].fInTried
    requires s'.mapInfo[id].nRandomPos == s.mapInfo[id].nRandomPos
    requires s'.mapInfo[id].nRefCount == s.mapInfo[id].nRefCount
    ensures Sound(s') && (Indexed(s) ==> Indexed(s'))
  {
    UpdateOne(s.mapInfo, s.vRandom, id, s'.mapInfo[id]);
    AlikeKeeps(s, s', {}, 0);
  }

  lemma GoodKeeps(s: State, a: Service, nTime: int)
    requires Sound(s)
    ensures Sound(Good(s, a, nTime)) && (Indexed(s) ==> Indexed(Good(s, a, nTime)))
  {
    var s0 := s.(nLastGood := nTime);
    var found := Find(s, a);
    if found.Some? && s.mapInfo[found.value].addr.service == a {
      var id := found.value;
      var s1 := Update(s0, id, s.mapInfo[id].(nLastSuccess := nTime, nLastTry := nTime, nAttempts := 0));
      StatsKeep(s, s1, id);
      if !s.mapInfo[id].fInTried {
        MakeTriedKeeps(s1, id);
      }
    } else {
      AlikeKeeps(s, s0, {}, 0);
    }
  }

  /** The last third of `Add_`: try to give the entry the slot of this source (src/addrman.cpp:311-331). */
  ghost function Offer(s: State, id: int, source: NetAddr, now: int): State
    requires id in s.mapInfo
    requires Between(s, if s.mapInfo[id].nRefCount == 0 then {id} else {}, 0)
  {
    var slot := NewSlot(s.cfg, s.mapInfo[id].addr.service, source);
    if slot in s.vvNew && s.vvNew[slot] == id then s
    else if slot !in s.vvNew || IsTerrible(s.mapInfo[s.vvNew[slot]], now)
         || (s.mapInfo[s.vvNew[slot]].nRefCount > 1 && s.mapInfo[id].nRefCount == 0) then
      ClearNewKeeps(s, slot, if s.mapInfo[id].nRefCount == 0 then {id} else {}, 0);
      ClearNewSpares(s, slot);
      AddRef(ClearNew(s, slot), slot, id)
    else if s.mapInfo[id].nRefCount == 0 then
      FloatingDeletable(s, id, {id}, 0);
      Delete(s, id)
    else
      s
  }

  lemma OfferKeeps(s: State, id: int, source: NetAddr, now: int)
    requires id in s.mapInfo && !s.mapInfo[id].fInTried && s.mapInfo[id].nRefCount < NEW_BUCKETS_PER_ADDRESS
    requires Between(s, if s.mapInfo[id].nRefCount == 0 then {id} else {}, 0)
    ensures Sound(Offer(s, id, source, now)) && (Indexed(s) ==> Indexed(Offer(s, id, source, now)))
  {
    var floating := if s.mapInfo[id].nRefCount == 0 then {id} else {};
    var slot := NewSlot(s.cfg, s.mapInfo[id].addr.service, source);
    assert floating - {id} == {};
    if slot in s.vvNew && s.vvNew[slot] == id {
      assert slot in Refs(s.vvNew, id);
    } else if slot !in s.vvNew || IsTerrible(s.mapInfo[s.vvNew[slot]], now)
              || (s.mapInfo[s.vvNew[slot]].nRefCount > 1 && s.mapInfo[id].nRefCount == 0) {
      ClearNewKeeps(s, slot, floating, 0);
      ClearNewSpares(s, slot);
      AddRefKeeps(ClearNew(s, slot), slot, id, floating, 0);
    } else if s.mapInfo[id].nRefCount == 0 {
      DeleteKeeps(s, id, floating, 0);
    }
  }

  /** `CAddrMan::Add_`; `unlucky` says that the stochastic test drew a nonzero number. */
  ghost function Add(s: State, a: Address, source: NetAddr, nTimePenalty: int, now: int, unlucky: bool): State
    requires Sound(s)
  {
    if !s.cfg.routable(a.service) then s
    else
      var penalty := if a.service.ip == source then 0 else nTimePenalty;
      var found := Find(s, a.service);
      if found.Some? then
        AddKnown(s, found.value, a, source, penalty, now, unlucky)
      else
        CreatedKeeps(s, a, source, penalty);
        Offer(Created(s, a, source, penalty), s.nIdCount, source, now)
  }

  /** `Add_` for an entry that exists (src/addrman.cpp:276-303). */
  ghost function AddKnown(s: State, id: int, a: Address, source: NetAddr, penalty: int, now: int, unlucky: bool): State
    requires Sound(s) && id in s.mapInfo
  {
    var info := Refreshed(s.mapInfo[id], a, penalty, now);
    var s1 := Update(s, id, info);
    if a.nTime == 0 || (info.addr.nTime != 0 && a.nTime <= info.addr.nTime) then s1
    else if info.fInTried || info.nRefCount == NEW_BUCKETS_PER_ADDRESS then s1
    else if info.nRefCount > 0 && unlucky then s1
    else
      StatsKeep(s, s1, id);
      Offer(s1, id, source, now)
  }

  /** An entry seen again: fresher nTime and more services (src/addrman.cpp:277-284). */
  function Refreshed(info: Info, a: Address, penalty: int, now: int): Info {
    info.(addr := info.addr.(nTime := RefreshedTime(info.addr.nTime, a.nTime, penalty, now),
                             nServices := info.addr.nServices | a.nServices))
  }

  function RefreshedTime(known: nat, seen: nat, penalty: int, now: int): nat {
    var interval := if now - seen < 24 * 60 * 60 then 60 * 60 else 24 * 60 * 60;
    if seen != 0 && (known == 0 || known < seen - interval - penalty) then ToU32(Max(0, seen - penalty)) else known
  }

  /** A new entry, counted but not yet in any slot (src/addrman.cpp:305-307). */
  function Created(s: State, a: Address, source: NetAddr, penalty: int): State {
    var s1 := Create(s, a, source);
    var id := s.nIdCount;
    var info := s1.mapInfo[id];
    Update(s1, id, info.(addr := info.addr.(nTime := ToU32(Max(0, info.addr.nTime - penalty))))).(nNew := s.nNew + 1)
  }

  lemma CreatedKeeps(s: State, a: Address, source: NetAddr, penalty: int)
    requires Sound(s) && Find(s, a.service).None?
    ensures Between(Created(s, a, source, penalty), {s.nIdCount}, 0)
    ensures Indexed(s) ==> Indexed(Created(s, a, source, penalty))
  {
    var id := s.nIdCount;
    CreateKeeps(s, a, source, {}, 0);
    assert {} + {id} == {id};
    var s1 := Create(s, a, source);
    var s2 := Created(s, a, source, penalty).(nNew := s.nNew);
    UpdateOne(s1.mapInfo, s1.vRandom, id, s2.mapInfo[id]);
    AlikeKeeps(s1, s2, {id}, 1);
    Recount(s2, {id}, 1, s.nNew + 1, 0);
  }

  lemma AddKeeps(s: State, a: Address, source: NetAddr, nTimePenalty: int, now: int, unlucky: bool)
    requires Sound(s)
    ensures Sound(Add(s, a, source, nTimePenalty, now, unlucky))
            && (Indexed(s) ==> Indexed(Add(s, a, source, nTimePenalty, now, unlucky)))
  {
    var penalty := if a.service.ip == source then 0 else nTimePenalty;
    var found := Find(s, a.service);
    if s.cfg.routable(a.service) {
      if found.Some? {
        AddKnownKeeps(s, found.value, a, source, penalty, now, unlucky);
      } else {
        CreatedKeeps(s, a, source, penalty);
        OfferKeeps(Created(s, a, source, penalty), s.nIdCount, source, now);
      }
    }
  }

  lemma AddKnownKeeps(s: State, id: int, a: Address, source: NetAddr, penalty: int, now: int, unlucky: bool)
    requires Sound(s) && id in s.mapInfo
    ensures Sound(AddKnown(s, id, a, source, penalty, now, unlucky))
            && (Indexed(s) ==> Indexed(AddKnown(s, id, a, source, penalty, now, unlucky)))
  {
    var s1 := Update(s, id, Refreshed(s.mapInfo[id], a, penalty, now));
    StatsKeep(s, s1, id);
    if !s1.mapInfo[id].fInTried && s1.mapInfo[id].nRefCount < NEW_BUCKETS_PER_ADDRESS {
      OfferKeeps(s1, id, source, now);
    }
  }

  /** `CAddrMan::Attempt_`. */
  ghost function Attempt(s: State, a: Service, fCountFailure: bool, nTime: int): State {
    var found := Find(s, a);
    if found.None? || s.mapInfo[found.value].addr.service != a then s
    else
      var info := s.mapInfo[found.value].(nLastTry := nTime);
      Update(s, found.value,
             if fCountFailure && info.nLastCountAttempt < s.nLastGood
             then info.(nLastCountAttempt := nTime, nAttempts := info.nAttempts + 1) else info)
  }

  /** `CAddrMan::Connected_`. */
  ghost function Connected(s: State, a: Service, nTime: int): State {
    var found := Find(s, a);
    if found.None? || s.mapInfo[found.value].addr.service != a then s
    else
      var info := s.mapInfo[found.value];
      if nTime - info.addr.nTime > 20 * 60
      then Update(s, found.value, info.(addr := info.addr.(nTime := ToU32(nTime)))) else s
  }

  /** `CAddrMan::SetServices_`. */
  ghost function SetServices(s: State, a: Service, nServices: bv64): State {
    var found := Find(s, a);
    if found.None? || s.mapInfo[found.value].addr.service != a then s
    else
      var info := s.mapInfo[found.value];
      Update(s, found.value, info.(addr := info.addr.(nServices := nServices)))
  }

  lemma AttemptKeeps(s: State, a: Service, fCountFailure: bool, nTime: int)
    requires Sound(s)
    ensures Sound(Attempt(s, a, fCountFailure, nTime)) && (Indexed(s) ==> Indexed(Attempt(s, a, fCountFailure, nTime)))
  {
    if Attempt(s, a, fCountFailure, nTime) != s {
      StatsKeep(s, Attempt(s, a, fCountFailure, nTime), Find(s, a).value);
    }
  }

  lemma ConnectedKeeps(s: State, a: Service, nTime: int)
    requires Sound(s)
    ensures Sound(Connected(s, a, nTime)) && (Indexed(s) ==> Indexed(Connected(s, a, nTime)))
  {
    if Connected(s, a, nTime) != s {
      StatsKeep(s, Connected(s, a, nTime), Find(s, a).value);
    }
  }

  lemma SetServicesKeeps(s: State, a: Service, nServices: bv64)
    requires Sound(s)
    ensures Sound(SetServices(s, a, nServices)) && (Indexed(s) ==> Indexed(SetServices(s, a, nServices)))
  {
    if SetServices(s, a, nServices) != s {
      StatsKeep(s, SetServices(s, a, nServices), Find(s, a).value);
    }
  }

  /** All that `GetAddr_` may change: the order of vRandom, with nRandomPos following it. */
  ghost predicate Reordered(s: State, s': State) {
    && s' == s.(mapInfo := s'.mapInfo, vRandom := s'.vRandom)
    && multiset(s'.vRandom) == multiset(s.vRandom)
    && s'.mapInfo.Keys == s.mapInfo.Keys
    && (forall id :: id in s.mapInfo ==>
          s'.mapInfo[id] == s.mapInfo[id].(nRandomPos := s'.mapInfo[id].nRandomPos))
    && RandomOk(s'.mapInfo, s'.vRandom)
  }

  lemma ReorderedKeeps(s: State, s': State)
    requires Sound(s) && Reordered(s, s')
    ensures Sound(s') && (Indexed(s) ==> Indexed(s'))
  {
    AlikeKeeps(s, s', {}, 0);
  }

  lemma SwapReorders(s: State, s1: State, i: nat, j: nat)
    requires Reordered(s, s1)
    requires i < |s1.vRandom| && j < |s1.vRandom|
    ensures Reordered(s, SwapRandom(s1, i, j))
  {
    SwapRandomPermutes(s1, i, j);
    SwapMultiset(s1.vRandom, i, j);
    SwapInfos(s1, i, j);
  }

  lemma SwapMultiset(v: seq<int>, i: nat, j: nat)
    requires i < |v| && j < |v|
    ensures multiset(v[i := v[j]][j := v[i]]) == multiset(v)
  {
  }

  lemma SwapInfos(s: State, i: nat, j: nat)
    requires i < |s.vRandom| && j < |s.vRandom|
    requires s.vRandom[i] in s.mapInfo && s.vRandom[j] in s.mapInfo
    ensures var s' := SwapRandom(s, i, j);
            && s' == s.(mapInfo := s'.mapInfo, vRandom := s'.vRandom) && |s'.vRandom| == |s.vRandom|
            && s'.mapInfo.Keys == s.mapInfo.Keys
            && forall id :: id in s.mapInfo ==>
                 s'.mapInfo[id] == s.mapInfo[id].(nRandomPos := s'.mapInfo[id].nRandomPos)
  {
  }

  // ----- Whole runs -----

  datatype Op =
    | AddOp(a: Address, source: NetAddr, nTimePenalty: int, now: int, unlucky: bool)
    | GoodOp(service: Service, nTime: int)
    | AttemptOp(service: Service, fCountFailure: bool, nTime: int)
    | ConnectedOp(service: Service, nTime: int)
    | SetServicesOp(service: Service, nServices: bv64)
    | GetAddrOp

  ghost predicate Step(s: State, op: Op, s': State)
    requires Sound(s)
  {
    match op
    case AddOp(a, source, nTimePenalty, now, unlucky) => s' == Add(s, a, source, nTimePenalty, now, unlucky)
    case GoodOp(service, nTime) => s' == Good(s, service, nTime)
    case AttemptOp(service, fCountFailure, nTime) => s' == Attempt(s, service, fCountFailure, nTime)
    case ConnectedOp(service, nTime) => s' == Connected(s, service, nTime)
    case SetServicesOp(service, nServices) => s' == SetServices(s, service, nServices)
    case GetAddrOp => Reordered(s, s')
  }

  /** A freshly constructed manager. */
  function Fresh(c: Config): State {
    State(c, 0, map[], map[], [], 0, map[], 0, map[], 1)
  }

  lemma FreshInv(c: Config)
    ensures Inv(Fresh(c))
  {
  }

  lemma StepKeepsInv(s: State, op: Op, s': State)
    requires Sound(s) && Step(s, op, s')
    ensures Sound(s') && (Indexed(s) ==> Indexed(s'))
  {
    match op
    case AddOp(a, source, nTimePenalty, now, unlucky) => AddKeeps(s, a, source, nTimePenalty, now, unlucky);
    case GoodOp(service, nTime) => GoodKeeps(s, service, nTime);
    case AttemptOp(service, fCountFailure, nTime) => AttemptKeeps(s, service, fCountFailure, nTime);
    case ConnectedOp(service, nTime) => ConnectedKeeps(s, service, nTime);
    case SetServicesOp(service, nServices) => SetServicesKeeps(s, service, nServices);
    case GetAddrOp => ReorderedKeeps(s, s');
  }

  /** The manager is in state `s'` after some run of `ops` from `s`. */
  ghost predicate Run(s: State, ops: seq<Op>, s': State)
    decreases |ops|
  {
    if ops == [] then s == s'
    else Sound(s) && exists s1 :: Step(s, ops[0], s1) && Run(s1, ops[1..], s')
  }

  lemma {:induction false} RunKeepsInv(s: State, ops: seq<Op>, s': State)
    requires Sound(s) && Run(s, ops, s')
    ensures Sound(s') && (Indexed(s) ==> Indexed(s'))
    decreases |ops|
  {
    if ops != [] {
      var s1 :| Step(s, ops[0], s1) && Run(s1, ops[1..], s');
      StepKeepsInv(s, ops[0], s1);
      RunKeepsInv(s1, ops[1..], s');
    }
  }

  /** The main theorem: every run of a new manager keeps all of its indexes consistent. */
  lemma EveryRunIsConsistent(c: Config, ops: seq<Op>, s: State)
    requires Run(Fresh(c), ops, s)
    ensures Inv(s)
    ensures s.nNew + s.nTried == |s.vRandom|
    ensures forall slot :: slot in s.vvNew ==> slot.pos < BUCKET_SIZE
  {
    FreshInv(c);
    RunKeepsInv(Fresh(c), ops, s);
    SizesAgree(s);
  }

  lemma SizesAgree(s: State)
    requires Sound(s)
    ensures s.nNew + s.nTried == |s.vRandom|
  {
    AllListed(s.mapInfo, s.vRandom);
  }

  /** vRandom is as long as there are new and tried entries. */
  lemma AllListed(m: map<int, Info>, vRandom: seq<int>)
    requires RandomOk(m, vRandom)
    ensures |vRandom| == |NewIds(m)| + |TriedIds(m)|
  {
    RandomIsBijection(m, vRandom, |vRandom|);
    forall id ensures id in Listed(vRandom, |vRandom|) <==> id in m.Keys {
      if id in m {
        assert vRandom[m[id].nRandomPos] == id;
      }
    }
    assert Listed(vRandom, |vRandom|) == m.Keys == NewIds(m) + TriedIds(m);
    assert NewIds(m) * TriedIds(m) == {};
  }

  ghost function Listed(vRandom: seq<int>, n: nat): set<int>
    requires n <= |vRandom|
  {
    set i | 0 <= i < n :: vRandom[i]
  }

  lemma {:induction false} RandomIsBijection(m: map<int, Info>, vRandom: seq<int>, n: nat)
    requires RandomOk(m, vRandom) && n <= |vRandom|
    ensures |Listed(vRandom, n)| == n
  {
    if n > 0 {
      RandomIsBijection(m, vRandom, n - 1);
      assert forall i :: 0 <= i < n ==> m[vRandom[i]].nRandomPos == i;
      assert Listed(vRandom, n) == Listed(vRandom, n - 1) + {vRandom[n - 1]};
    } else {
      assert Listed(vRandom, 0) == {};
    }
  }

  // ----- What the operations do for their callers -----

  /** The new bucket holds the entry, at the position computed for its address. */
  ghost predicate InBucket(c: Config, t: Table, a: Service, id: int, bucket: nat) {
    var slot := Slot(bucket, BucketPosition(c, a, true, bucket));
    slot in t && t[slot] == id
  }

  /** The "no bucket is found" exit of `Good_` is never taken. */
  lemma NewEntryHasBucket(s: State, id: int)
    requires Sound(s) && id in s.mapInfo && !s.mapInfo[id].fInTried
    ensures exists b: nat :: b < NEW_BUCKET_COUNT && InBucket(s.cfg, s.vvNew, s.mapInfo[id].addr.service, id, b)
  {
    assert Refs(s.vvNew, id) != {};
    var slot :| slot in Refs(s.vvNew, id);
    assert slot == Slot(slot.bucket, BucketPosition(s.cfg, s.mapInfo[id].addr.service, true, slot.bucket));
    assert InBucket(s.cfg, s.vvNew, s.mapInfo[id].addr.service, id, slot.bucket);
  }

  /** An address is found exactly when some entry has it, up to its port if ports do not count. */
  lemma FindFinds(s: State, a: Service)
    requires Inv(s)
    ensures Find(s, a).Some? <==>
              exists id :: id in s.mapInfo && Normal(s.cfg, s.mapInfo[id].addr.service) == Normal(s.cfg, a)
    ensures Find(s, a).Some? ==>
              Find(s, a).value in s.mapInfo
                && Normal(s.cfg, s.mapInfo[Find(s, a).value].addr.service) == Normal(s.cfg, a)
  {
    var key := Normal(s.cfg, a);
    if key in s.mapAddr {
      var id := s.mapAddr[key];
      assert id in s.mapInfo && Normal(s.cfg, s.mapInfo[id].addr.service) == key;
    }
  }

  /**
    After `Good_` on an address that is known with this very port, its entry is in the
    tried table, at its slot and in no new slot, with its statistics reset and nothing
    else of it changed, whether or not another entry had to go for it.
   */
  lemma GoodMakesTried(s: State, a: Service, nTime: int)
    requires Sound(s)
    requires Find(s, a).Some? && s.mapInfo[Find(s, a).value].addr.service == a
    ensures var id := Find(s, a).value;
            var s' := Good(s, a, nTime);
            && id in s'.mapInfo && TriedSlot(s.cfg, a) in s'.vvTried && s'.vvTried[TriedSlot(s.cfg, a)] == id
            && Refs(s'.vvNew, id) == {}
            && s'.mapInfo[id] == s.mapInfo[id].(fInTried := true, nRefCount := 0,
                                                nLastSuccess := nTime, nLastTry := nTime, nAttempts := 0,
                                                nRandomPos := s'.mapInfo[id].nRandomPos)
  {
    var id := Find(s, a).value;
    var s1 := Update(s.(nLastGood := nTime), id,
                     s.mapInfo[id].(nLastSuccess := nTime, nLastTry := nTime, nAttempts := 0));
    StatsKeep(s, s1, id);
    if !s.mapInfo[id].fInTried {
      MakeTriedKeeps(s1, id);
    }
    InTriedTable(Good(s, a, nTime), id);
  }

  lemma InTriedTable(s: State, id: int)
    requires Sound(s) && id in s.mapInfo && s.mapInfo[id].fInTried
    ensures var slot := TriedSlot(s.cfg, s.mapInfo[id].addr.service); slot in s.vvTried && s.vvTried[slot] == id
    ensures s.mapInfo[id].nRefCount == 0 && Refs(s.vvNew, id) == {}
  {
  }

  /** An entry that had to go is a new one again, with one reference, in the slot of its own source. */
  lemma EvictedIsNew(s: State, id: int)
    requires Sound(s) && id in s.mapInfo && !s.mapInfo[id].fInTried
             && TriedSlot(s.cfg, s.mapInfo[id].addr.service) in s.vvTried
    ensures var moved := s.vvTried[TriedSlot(s.cfg, s.mapInfo[id].addr.service)];
            var s' := MakeTried(s, id);
            && moved in s.mapInfo && moved in s'.mapInfo && !s'.mapInfo[moved].fInTried
            && s'.mapInfo[moved].nRefCount == 1
            && var newSlot := NewSlot(s.cfg, s.mapInfo[moved].addr.service, s.mapInfo[moved].source);
            newSlot in s'.vvNew && s'.vvNew[newSlot] == moved
  {
    UnlistKeeps(s, id);
    var s1 := Unlist(s, id);
    var slot := TriedSlot(s.cfg, s.mapInfo[id].addr.service);
    var moved := s1.vvTried[slot];
    UntryKeeps(s1, slot, {id}, 1);
    var s2 := Untry(s1, slot);
    var newSlot := NewSlot(s.cfg, s.mapInfo[moved].addr.service, s.mapInfo[moved].source);
    EnterKeeps(s2, newSlot, moved, {id} + {moved}, 2);
    ClearNewSpares(s2, newSlot);
    EvictKeeps(s1, slot, id);
  }

  /** The entry was dropped on the way from `s` to `s'`. */
  ghost predicate Lost(s: State, s': State, id: int) {
    id in s.mapInfo && id !in s'.mapInfo
  }

  /** At most one entry was dropped, it was not a tried one, and nothing was made up. */
  ghost predicate LosesAtMostOneNew(s: State, s': State) {
    && (forall id :: id in s'.mapInfo ==> id in s.mapInfo)
    && (forall x, y :: Lost(s, s', x) && Lost(s, s', y) ==> x == y)
    && (forall id :: Lost(s, s', id) ==> !s.mapInfo[id].fInTried)
  }

  lemma ClearNewLoses(s: State, slot: Slot)
    requires Clearable(s, slot)
    ensures LosesAtMostOneNew(s, ClearNew(s, slot))
  {
    ClearNewSpares(s, slot);
    var s' := ClearNew(s, slot);
    assert forall id :: Lost(s, s', id) ==> slot in s.vvNew && s.vvNew[slot] == id;
  }

  /** Marking an address good costs at most one entry, and never one from the tried table. */
  lemma GoodLosesAtMostOne(s: State, a: Service, nTime: int)
    requires Sound(s)
    ensures LosesAtMostOneNew(s, Good(s, a, nTime))
  {
    var found := Find(s, a);
    if found.Some? && s.mapInfo[found.value].addr.service == a && !s.mapInfo[found.value].fInTried {
      var id := found.value;
      var s1 := Update(s.(nLastGood := nTime), id,
                       s.mapInfo[id].(nLastSuccess := nTime, nLastTry := nTime, nAttempts := 0));
      StatsKeep(s, s1, id);
      MakeTriedLoses(s1, id);
      assert SameFlags(s, s1);
      LosesAfter(s, s1, MakeTried(s1, id));
    }
  }

  ghost predicate SameFlags(s: State, s1: State) {
    && s.mapInfo.Keys == s1.mapInfo.Keys
    && forall id :: id in s.mapInfo ==> s.mapInfo[id].fInTried == s1.mapInfo[id].fInTried
  }

  lemma LosesAfter(s: State, s1: State, s2: State)
    requires SameFlags(s, s1) && LosesAtMostOneNew(s1, s2)
    ensures LosesAtMostOneNew(s, s2)
  {
    assert forall id :: Lost(s, s2, id) <==> Lost(s1, s2, id);
  }

  lemma LosesBefore(s: State, s1: State, s2: State)
    requires LosesAtMostOneNew(s, s1) && s1.mapInfo.Keys == s2.mapInfo.Keys
    ensures LosesAtMostOneNew(s, s2)
  {
    assert forall id :: Lost(s, s2, id) <==> Lost(s, s1, id);
  }

  lemma MakeTriedLoses(s: State, id: int)
    requires Sound(s) && id in s.mapInfo && !s.mapInfo[id].fInTried
    ensures LosesAtMostOneNew(s, MakeTried(s, id))
  {
    UnlistKeeps(s, id);
    var s1 := Unlist(s, id);
    var slot := TriedSlot(s.cfg, s.mapInfo[id].addr.service);
    assert SameFlags(s, s1);
    if slot in s1.vvTried {
      EvictTryLoses(s1, slot, id);
      LosesAfter(s, s1, MakeTried(s, id));
    } else {
      assert s1.mapInfo.Keys == MakeTried(s, id).mapInfo.Keys;
    }
  }

  lemma EvictTryLoses(s: State, slot: Slot, id: int)
    requires Between(s, {id}, 1) && slot in s.vvTried
    ensures id in Evict(s, slot, id).mapInfo
    ensures LosesAtMostOneNew(s, Try(Evict(s, slot, id), slot, id))
  {
    EvictKeeps(s, slot, id);
    EvictLoses(s, slot, id);
    LosesBefore(s, Evict(s, slot, id), Try(Evict(s, slot, id), slot, id));
  }

  lemma EvictLoses(s: State, slot: Slot, id: int)
    requires Between(s, {id}, 1) && slot in s.vvTried
    ensures LosesAtMostOneNew(s, Evict(s, slot, id))
  {
    UntryKeeps(s, slot, {id}, 1);
    var moved := s.vvTried[slot];
    var s1 := Untry(s, slot);
    var newSlot := NewSlot(s.cfg, s.mapInfo[moved].addr.service, s.mapInfo[moved].source);
    EnterKeeps(s1, newSlot, moved, {id} + {moved}, 2);
    EnterLoses(s, s1, newSlot, moved);
  }

  lemma EnterLoses(s: State, s1: State, slot: Slot, moved: int)
    requires s1.mapInfo.Keys == s.mapInfo.Keys && moved in s1.mapInfo
    requires forall x :: x in s.mapInfo && x != moved ==> s1.mapInfo[x].fInTried == s.mapInfo[x].fInTried
    requires Clearable(s1, slot) && !(slot in s1.vvNew && s1.vvNew[slot] == moved)
    ensures LosesAtMostOneNew(s, Enter(s1, slot, moved))
  {
    ClearNewSpares(s1, slot);
    ClearNewLoses(s1, slot);
    var s2 := ClearNew(s1, slot);
    assert forall x :: Lost(s, s2, x) <==> Lost(s1, s2, x);
    assert LosesAtMostOneNew(s, s2);
    LosesBefore(s, s2, Enter(s1, slot, moved));
  }

  lemma OfferLoses(s: State, id: int, source: NetAddr, now: int)
    requires id in s.mapInfo && !s.mapInfo[id].fInTried
    requires Between(s, if s.mapInfo[id].nRefCount == 0 then {id} else {}, 0)
    ensures LosesAtMostOneNew(s, Offer(s, id, source, now))
    ensures Offer(s, id, source, now).vvTried == s.vvTried
  {
    var floating := if s.mapInfo[id].nRefCount == 0 then {id} else {};
    var slot := NewSlot(s.cfg, s.mapInfo[id].addr.service, source);
    if slot in s.vvNew && s.vvNew[slot] == id {
    } else if slot !in s.vvNew || IsTerrible(s.mapInfo[s.vvNew[slot]], now)
              || (s.mapInfo[s.vvNew[slot]].nRefCount > 1 && s.mapInfo[id].nRefCount == 0) {
      ClearNewKeeps(s, slot, floating, 0);
      TakeLoses(s, slot, id);
    } else if s.mapInfo[id].nRefCount == 0 {
      FloatingDeletable(s, id, {id}, 0);
      DeleteLoses(s, id);
    }
  }

  lemma TakeLoses(s: State, slot: Slot, id: int)
    requires Clearable(s, slot) && id in s.mapInfo && !(slot in s.vvNew && s.vvNew[slot] == id)
    ensures id in ClearNew(s, slot).mapInfo
    ensures LosesAtMostOneNew(s, AddRef(ClearNew(s, slot), slot, id))
    ensures AddRef(ClearNew(s, slot), slot, id).vvTried == s.vvTried
  {
    ClearNewSpares(s, slot);
    ClearNewLoses(s, slot);
    LosesBefore(s, ClearNew(s, slot), AddRef(ClearNew(s, slot), slot, id));
  }

  lemma DeleteLoses(s: State, id: int)
    requires Deletable(s, id)
    ensures LosesAtMostOneNew(s, Delete(s, id)) && Delete(s, id).vvTried == s.vvTried
  {
    DeleteSpares(s, id);
  }

  /** Adding a known address costs at most one entry, and leaves the tried table alone. */
  lemma AddAgainLosesAtMostOne(s: State, a: Address, source: NetAddr, nTimePenalty: int, now: int, unlucky: bool)
    requires Sound(s) && Find(s, a.service).Some?
    ensures var s' := Add(s, a, source, nTimePenalty, now, unlucky);
            LosesAtMostOneNew(s, s') && s'.vvTried == s.vvTried
  {
    if s.cfg.routable(a.service) {
      var penalty := if a.service.ip == source then 0 else nTimePenalty;
      AddKnownLoses(s, Find(s, a.service).value, a, source, penalty, now, unlucky);
    }
  }

  lemma AddKnownLoses(s: State, id: int, a: Address, source: NetAddr, penalty: int, now: int, unlucky: bool)
    requires Sound(s) && id in s.mapInfo
    ensures var s' := AddKnown(s, id, a, source, penalty, now, unlucky);
            LosesAtMostOneNew(s, s') && s'.vvTried == s.vvTried
  {
    var s1 := Update(s, id, Refreshed(s.mapInfo[id], a, penalty, now));
    StatsKeep(s, s1, id);
    if !s1.mapInfo[id].fInTried {
      OfferLoses(s1, id, source, now);
      LosesAfter(s, s1, Offer(s1, id, source, now));
    }
  }

  /** Adding an unknown address costs at most one entry, which may be the new one itself. */
  lemma AddFirstLosesAtMostOne(s: State, a: Address, source: NetAddr, nTimePenalty: int, now: int, unlucky: bool)
    requires Sound(s) && Find(s, a.service).None? && s.cfg.routable(a.service)
    ensures var s' := Add(s, a, source, nTimePenalty, now, unlucky);
            LosesAtMostOneNew(Create(s, a, source), s') && s'.vvTried == s.vvTried
  {
    var penalty := if a.service.ip == source then 0 else nTimePenalty;
    var s1 := Created(s, a, source, penalty);
    CreatedKeeps(s, a, source, penalty);
    OfferLoses(s1, s.nIdCount, source, now);
    LosesAfter(Create(s, a, source), s1, Offer(s1, s.nIdCount, source, now));
  }

  // ----- Exactly what Add_ does -----

  /**
    An entry that may be thrown out: it was not tried within the last minute, and it claims
    to be from the future, is unseen for a month, failed three times without ever succeeding,
    or failed ten times with its last success more than a week ago.
   */
  ghost predicate Replaceable(info: Info, now: int) {
    && (info.nLastTry == 0 || info.nLastTry < now - 60)
    && (|| info.addr.nTime > now + 600
        || info.addr.nTime == 0 || info.addr.nTime < now - 2592000
        || (info.nLastSuccess == 0 && info.nAttempts >= 3)
        || (info.nLastSuccess < now - 604800 && info.nAttempts >= 10))
  }

  lemma TerribleMeans(info: Info, now: int)
    ensures IsTerrible(info, now) <==> Replaceable(info, now)
  {
  }

  /** A source's announcement of itself is not made older. */
  ghost function PenaltyFor(a: Address, source: NetAddr, nTimePenalty: int): int {
    if a.service.ip == source then 0 else nTimePenalty
  }

  /** The entry of an address that was unknown, in one new slot. */
  ghost function Newcomer(a: Address, source: NetAddr, penalty: int, pos: int): Info {
    Info(a.(nTime := ToU32(Max(0, a.nTime - penalty))), source, 0, 0, 1, false, pos, 0, 0)
  }

  /** An address that cannot be routed to is not added. */
  lemma AddUnroutable(s: State, a: Address, source: NetAddr, nTimePenalty: int, now: int, unlucky: bool)
    requires Sound(s) && !s.cfg.routable(a.service)
    ensures Add(s, a, source, nTimePenalty, now, unlucky) == s
  {
  }

  /** An unknown address whose slot is free gets the next id and that slot, and nothing else changes. */
  lemma AddToFreeSlot(s: State, a: Address, source: NetAddr, nTimePenalty: int, now: int, unlucky: bool)
    requires Sound(s) && s.cfg.routable(a.service) && Find(s, a.service).None?
             && NewSlot(s.cfg, a.service, source) !in s.vvNew
    ensures var s', id := Add(s, a, source, nTimePenalty, now, unlucky), s.nIdCount;
            && s' == s.(nIdCount := id + 1, nNew := s.nNew + 1, vRandom := s.vRandom + [id],
                        mapInfo := s'.mapInfo, mapAddr := s'.mapAddr, vvNew := s'.vvNew)
            && s'.mapInfo.Keys == s.mapInfo.Keys + {id}
            && (forall x :: x in s.mapInfo ==> s'.mapInfo[x] == s.mapInfo[x])
            && s'.mapInfo[id] == Newcomer(a, source, PenaltyFor(a, source, nTimePenalty), |s.vRandom|)
            && s'.vvNew == s.vvNew[NewSlot(s.cfg, a.service, source) := id]
            && s'.mapAddr == s.mapAddr[Normal(s.cfg, a.service) := id]
  {
    CreatedKeeps(s, a, source, PenaltyFor(a, source, nTimePenalty));
  }

  /** Taking a slot from its holder, which is deleted if it has no other. */
  ghost predicate TakenFrom(s: State, s': State, slot: Slot, id: int)
    requires slot in s.vvNew
  {
    var holder := s.vvNew[slot];
    && s'.vvNew == s.vvNew[slot := id] && s'.vvTried == s.vvTried && holder in s.mapInfo
    && (holder in s'.mapInfo <==> s.mapInfo[holder].nRefCount > 1)
    && (holder in s'.mapInfo ==>
          && SameEntry(s.mapInfo[holder], s'.mapInfo[holder])
          && s'.mapInfo[holder].nRefCount == s.mapInfo[holder].nRefCount - 1)
    && (forall x :: x in s.mapInfo && x != holder && x != id ==>
          && x in s'.mapInfo && SameEntry(s.mapInfo[x], s'.mapInfo[x])
          && s'.mapInfo[x].nRefCount == s.mapInfo[x].nRefCount)
  }

  /**
    An unknown address whose slot is held: the holder loses the slot if and only if it has
    another one or may be thrown out.  Otherwise nothing is left of the newcomer.
   */
  lemma AddToHeldSlot(s: State, a: Address, source: NetAddr, nTimePenalty: int, now: int, unlucky: bool)
    requires Sound(s) && s.cfg.routable(a.service) && Find(s, a.service).None?
             && NewSlot(s.cfg, a.service, source) in s.vvNew
    ensures HeldSlotDecided(s, Add(s, a, source, nTimePenalty, now, unlucky), a, source,
                            PenaltyFor(a, source, nTimePenalty), now)
  {
    var slot, id := NewSlot(s.cfg, a.service, source), s.nIdCount;
    var penalty := PenaltyFor(a, source, nTimePenalty);
    var s1 := Created(s, a, source, penalty);
    CreatedKeeps(s, a, source, penalty);
    CreatedAdds(s, a, source, penalty);
    OfferNewcomer(s1, id, slot, source, now);
    HeldSlotResult(s, s1, Offer(s1, id, source, now), a, source, penalty, now);
  }

  ghost predicate HeldSlotDecided(s: State, s': State, a: Address, source: NetAddr, penalty: int, now: int)
    requires NewSlot(s.cfg, a.service, source) in s.vvNew
  {
    var slot, id := NewSlot(s.cfg, a.service, source), s.nIdCount;
    && s.vvNew[slot] in s.mapInfo && var held := s.mapInfo[s.vvNew[slot]];
    if held.nRefCount > 1 || Replaceable(held, now) then
      && TakenFrom(s, s', slot, id) && id in s'.mapInfo
      && s'.mapInfo[id] == Newcomer(a, source, penalty, s'.mapInfo[id].nRandomPos)
    else
      Untouched(s, s')
  }

  /** No entry, no slot and no counter has changed. */
  ghost predicate Untouched(s: State, s': State) {
    && s'.mapInfo == s.mapInfo && s'.vvNew == s.vvNew && s'.vvTried == s.vvTried
    && s'.vRandom == s.vRandom && s'.nNew == s.nNew && s'.nTried == s.nTried
  }

  /** One entry more, which holds no slot yet. */
  ghost predicate OneMore(s: State, s1: State, id: int) {
    && id !in s.mapInfo && id in s1.mapInfo && s1.mapInfo == s.mapInfo[id := s1.mapInfo[id]]
    && s1.vRandom == s.vRandom + [id] && s1.mapInfo[id].nRandomPos == |s.vRandom|
    && s1.vvNew == s.vvNew && s1.vvTried == s.vvTried && s1.cfg == s.cfg
    && s1.nNew == s.nNew + 1 && s1.nTried == s.nTried
  }

  lemma CreatedAdds(s: State, a: Address, source: NetAddr, penalty: int)
    requires IdsOk(s.mapInfo, s.nIdCount)
    ensures var s1, id := Created(s, a, source, penalty), s.nIdCount;
            OneMore(s, s1, id) && s1.mapInfo[id] == Newcomer(a, source, penalty, |s.vRandom|).(nRefCount := 0)
  {
    var s1, id := Created(s, a, source, penalty), s.nIdCount;
    assert s1.mapInfo == s.mapInfo[id := s1.mapInfo[id]];
  }

  /** A held slot is offered to an entry that has none. */
  lemma OfferNewcomer(s: State, id: int, slot: Slot, source: NetAddr, now: int)
    requires Between(s, {id}, 0) && id in s.mapInfo && s.mapInfo[id].nRefCount == 0
    requires slot == NewSlot(s.cfg, s.mapInfo[id].addr.service, source) && slot in s.vvNew
    ensures s.vvNew[slot] != id && s.vvNew[slot] in s.mapInfo && s.mapInfo[s.vvNew[slot]].nRefCount > 0
    ensures var s', held := Offer(s, id, source, now), s.mapInfo[s.vvNew[slot]];
            if held.nRefCount > 1 || Replaceable(held, now) then
              && id in s'.mapInfo && TakenFrom(s, s', slot, id)
              && SameEntry(s.mapInfo[id], s'.mapInfo[id]) && s'.mapInfo[id].nRefCount == 1
            else
              Deletable(s, id) && s' == Delete(s, id)
  {
    HoldsNoSlot(s.mapInfo, s.vvNew, {id}, id, slot);
    DropRefKeeps(s, slot, {id}, 0);
    TerribleMeans(s.mapInfo[s.vvNew[slot]], now);
    if s.mapInfo[s.vvNew[slot]].nRefCount > 1 || Replaceable(s.mapInfo[s.vvNew[slot]], now) {
      ClearNewKeeps(s, slot, {id}, 0);
      TakeExactly(s, slot, id);
    } else {
      FloatingDeletable(s, id, {id}, 0);
    }
  }

  /** The two steps taken together. */
  lemma HeldSlotResult(s: State, s1: State, s': State, a: Address, source: NetAddr, penalty: int, now: int)
    requires NewSlot(s.cfg, a.service, source) in s.vvNew && OneMore(s, s1, s.nIdCount)
    requires s1.mapInfo[s.nIdCount] == Newcomer(a, source, penalty, |s.vRandom|).(nRefCount := 0)
    requires var slot, id := NewSlot(s.cfg, a.service, source), s.nIdCount;
             && s1.vvNew[slot] != id && s1.vvNew[slot] in s1.mapInfo && var held := s1.mapInfo[s1.vvNew[slot]];
             if held.nRefCount > 1 || Replaceable(held, now) then
               && id in s'.mapInfo && TakenFrom(s1, s', slot, id)
               && SameEntry(s1.mapInfo[id], s'.mapInfo[id]) && s'.mapInfo[id].nRefCount == 1
             else
               Deletable(s1, id) && s' == Delete(s1, id)
    ensures HeldSlotDecided(s, s', a, source, penalty, now)
  {
    var slot, id := NewSlot(s.cfg, a.service, source), s.nIdCount;
    var held := s1.mapInfo[s1.vvNew[slot]];
    if held.nRefCount > 1 || Replaceable(held, now) {
      TakenSame(s, s1, s', slot, id);
    } else {
      DeleteNewest(s, s1, id);
    }
  }

  lemma TakenSame(s: State, s1: State, s': State, slot: Slot, id: int)
    requires OneMore(s, s1, id) && slot in s.vvNew && s.vvNew[slot] != id && TakenFrom(s1, s', slot, id)
    ensures TakenFrom(s, s', slot, id)
  {
  }

  lemma TakeExactly(s: State, slot: Slot, id: int)
    requires Clearable(s, slot) && slot in s.vvNew && id in s.mapInfo && s.vvNew[slot] != id
    requires s.mapInfo[s.vvNew[slot]].nRefCount > 0
    ensures id in ClearNew(s, slot).mapInfo
    ensures var s' := AddRef(ClearNew(s, slot), slot, id);
            && TakenFrom(s, s', slot, id) && s'.cfg == s.cfg
            && SameEntry(s.mapInfo[id], s'.mapInfo[id]) && s'.mapInfo[id].nRefCount == s.mapInfo[id].nRefCount + 1
  {
    ClearNewSpares(s, slot);
    var holder := s.vvNew[slot];
    var s1 := DropRef(s, slot);
    if s1.mapInfo[holder].nRefCount == 0 {
      DeleteSpares(s1, holder);
    }
    assert (s.vvNew - {slot})[slot := id] == s.vvNew[slot := id];
  }

  /** Deleting the entry created last leaves no trace of it. */
  lemma DeleteNewest(s: State, s1: State, id: int)
    requires Deletable(s1, id) && id !in s.mapInfo
    requires s1.vRandom == s.vRandom + [id] && s1.mapInfo[id].nRandomPos == |s.vRandom|
    requires s1.mapInfo == s.mapInfo[id := s1.mapInfo[id]]
    ensures Delete(s1, id).mapInfo == s.mapInfo && Delete(s1, id).vRandom == s.vRandom
    ensures Delete(s1, id).vvNew == s1.vvNew && Delete(s1, id).vvTried == s1.vvTried
    ensures Delete(s1, id).nNew == s1.nNew - 1 && Delete(s1, id).nTried == s1.nTried
  {
    assert s.mapInfo[id := s1.mapInfo[id]] - {id} == s.mapInfo;
  }

  /** The time of a known entry is renewed: it has none, or lags by more than an hour, or a day for an old report. */
  ghost predicate Renewed(known: nat, seen: nat, penalty: int, now: int) {
    seen != 0 && (known == 0 || known + (if seen > now - 86400 then 3600 else 86400) + penalty < seen)
  }

  ghost function TimeAfter(known: nat, seen: nat, penalty: int, now: int): nat {
    if Renewed(known, seen, penalty, now) then ToU32(Max(0, seen - penalty)) else known
  }

  /** A known entry may get another slot: the report is newer than what is known, and luck and limits allow it. */
  ghost predicate MayGrow(info: Info, a: Address, penalty: int, now: int, unlucky: bool) {
    var known := TimeAfter(info.addr.nTime, a.nTime, penalty, now);
    && a.nTime > known && !info.fInTried && info.nRefCount < 8 && !unlucky
  }

  /**
    A known address: its time is renewed if it lags, its services are added up, and it gets
    the slot of this source if and only if it may grow and the slot is free or held by an
    entry that may be thrown out.  Otherwise nothing else changes.
   */
  lemma AddKnownExactly(s: State, a: Address, source: NetAddr, nTimePenalty: int, now: int, unlucky: bool)
    requires Sound(s) && s.cfg.routable(a.service) && Find(s, a.service).Some?
    ensures SeenAgain(s, Add(s, a, source, nTimePenalty, now, unlucky), Find(s, a.service).value, a, source,
                      PenaltyFor(a, source, nTimePenalty), now, unlucky)
  {
    var id, penalty := Find(s, a.service).value, PenaltyFor(a, source, nTimePenalty);
    var info := s.mapInfo[id];
    RefreshedMeans(info, a, penalty, now);
    var s1 := Update(s, id, Seen(info, a, penalty, now));
    StatsKeep(s, s1, id);
    if MayGrow(info, a, penalty, now, unlucky) {
      OfferKnown(s1, id, NewSlot(s.cfg, info.addr.service, source), source, now);
      SeenResult(s, s1, Offer(s1, id, source, now), id, a, source, penalty, now, unlucky);
    } else {
      NotOffered(s, id, a, source, penalty, now, unlucky);
    }
  }

  /** The entry with its time renewed and its services added up. */
  ghost function Seen(info: Info, a: Address, penalty: int, now: int): Info {
    info.(addr := info.addr.(nTime := TimeAfter(info.addr.nTime, a.nTime, penalty, now),
                             nServices := info.addr.nServices | a.nServices))
  }

  ghost predicate SeenAgain(s: State, s': State, id: int, a: Address, source: NetAddr, penalty: int, now: int,
                            unlucky: bool)
    requires id in s.mapInfo
  {
    var info, seen := s.mapInfo[id], Seen(s.mapInfo[id], a, penalty, now);
    var slot := NewSlot(s.cfg, info.addr.service, source);
    if MayGrow(info, a, penalty, now, unlucky) then
      SlotDecided(Update(s, id, seen), s', id, slot, now)
    else
      s' == Update(s, id, seen)
  }

  /** The slot goes to an entry that has others if it is free or held by one that may be thrown out. */
  ghost predicate SlotDecided(s: State, s': State, id: int, slot: Slot, now: int)
    requires id in s.mapInfo
  {
    var info := s.mapInfo[id];
    if slot !in s.vvNew then
      s' == s.(vvNew := s.vvNew[slot := id], mapInfo := s.mapInfo[id := info.(nRefCount := info.nRefCount + 1)])
    else if s.vvNew[slot] != id && s.vvNew[slot] in s.mapInfo && Replaceable(s.mapInfo[s.vvNew[slot]], now) then
      && TakenFrom(s, s', slot, id) && s'.cfg == s.cfg && id in s'.mapInfo
      && SameEntry(info, s'.mapInfo[id]) && s'.mapInfo[id].nRefCount == info.nRefCount + 1
    else
      s' == s
  }

  lemma SeenResult(s: State, s1: State, s': State, id: int, a: Address, source: NetAddr, penalty: int, now: int,
                   unlucky: bool)
    requires id in s.mapInfo && s1 == Update(s, id, Seen(s.mapInfo[id], a, penalty, now))
    requires MayGrow(s.mapInfo[id], a, penalty, now, unlucky)
    requires SlotDecided(s1, s', id, NewSlot(s.cfg, s.mapInfo[id].addr.service, source), now)
    ensures SeenAgain(s, s', id, a, source, penalty, now, unlucky)
  {
  }

  lemma NotOffered(s: State, id: int, a: Address, source: NetAddr, penalty: int, now: int, unlucky: bool)
    requires Sound(s) && id in s.mapInfo && !MayGrow(s.mapInfo[id], a, penalty, now, unlucky)
    ensures AddKnown(s, id, a, source, penalty, now, unlucky) == Update(s, id, Seen(s.mapInfo[id], a, penalty, now))
  {
    RefreshedMeans(s.mapInfo[id], a, penalty, now);
    RefsAtLeastOne(s, id);
  }

  lemma RefsAtLeastOne(s: State, id: int)
    requires Sound(s) && id in s.mapInfo
    ensures s.mapInfo[id].nRefCount <= 8 && (!s.mapInfo[id].fInTried ==> s.mapInfo[id].nRefCount > 0)
  {
  }

  lemma RefreshedMeans(info: Info, a: Address, penalty: int, now: int)
    ensures Refreshed(info, a, penalty, now) == Seen(info, a, penalty, now)
  {
  }

  /** An entry that has a slot is offered another. */
  lemma OfferKnown(s: State, id: int, slot: Slot, source: NetAddr, now: int)
    requires Sound(s) && id in s.mapInfo && !s.mapInfo[id].fInTried
    requires slot == NewSlot(s.cfg, s.mapInfo[id].addr.service, source)
    ensures s.mapInfo[id].nRefCount > 0 && SlotDecided(s, Offer(s, id, source, now), id, slot, now)
  {
    if slot in s.vvNew {
      TerribleMeans(s.mapInfo[s.vvNew[slot]], now);
      if s.vvNew[slot] != id && Replaceable(s.mapInfo[s.vvNew[slot]], now) {
        ClearNewKeeps(s, slot, {}, 0);
        DropRefKeeps(s, slot, {}, 0);
        TakeExactly(s, slot, id);
      }
    }
  }

  // ----- Exactly what the other operations do -----

  /** The entry that has this very address, port included; for any other the operations do nothing. */
  ghost predicate Names(s: State, a: Service, id: int) {
    Find(s, a) == Some(id) && s.mapInfo[id].addr.service == a
  }

  ghost predicate Named(s: State, a: Service) {
    exists id :: Names(s, a, id)
  }

  /** Only the entry with this address has changed, and of it only what `info` says. */
  ghost predicate OnlyEntry(s: State, s': State, id: int, info: Info) {
    s' == s.(mapInfo := s.mapInfo[id := info])
  }

  /** `Good_` on an address that no entry has only notes the time. */
  lemma GoodUnknown(s: State, a: Service, nTime: int)
    requires Sound(s) && !Named(s, a)
    ensures Good(s, a, nTime) == s.(nLastGood := nTime)
  {
    assert Find(s, a).Some? ==> !Names(s, a, Find(s, a).value);
  }

  /** A try is noted; it counts as a failure only if none was counted since the last success of any address. */
  lemma AttemptExactly(s: State, a: Service, fCountFailure: bool, nTime: int)
    ensures !Named(s, a) ==> Attempt(s, a, fCountFailure, nTime) == s
    ensures forall id :: Names(s, a, id) ==>
              var info := s.mapInfo[id];
              if fCountFailure && s.nLastGood > info.nLastCountAttempt then
                OnlyEntry(s, Attempt(s, a, fCountFailure, nTime), id,
                          info.(nLastTry := nTime, nLastCountAttempt := nTime, nAttempts := info.nAttempts + 1))
              else
                OnlyEntry(s, Attempt(s, a, fCountFailure, nTime), id, info.(nLastTry := nTime))
  {
    assert Find(s, a).Some? ==> (Named(s, a) <==> Names(s, a, Find(s, a).value));
  }

  /** A connection renews the time of an entry exactly if that is more than twenty minutes old. */
  lemma ConnectedExactly(s: State, a: Service, nTime: int)
    ensures !Named(s, a) ==> Connected(s, a, nTime) == s
    ensures forall id :: Names(s, a, id) ==>
              var info := s.mapInfo[id];
              OnlyEntry(s, Connected(s, a, nTime), id,
                        if info.addr.nTime < nTime - 1200 then info.(addr := info.addr.(nTime := nTime % 0x1_0000_0000))
                        else info)
  {
    assert Find(s, a).Some? ==> (Named(s, a) <==> Names(s, a, Find(s, a).value));
    forall id | Names(s, a, id) ensures s.mapInfo[id := s.mapInfo[id]] == s.mapInfo {
    }
  }

  /** The services of an entry are replaced. */
  lemma SetServicesExactly(s: State, a: Service, nServices: bv64)
    ensures !Named(s, a) ==> SetServices(s, a, nServices) == s
    ensures forall id :: Names(s, a, id) ==>
              var info := s.mapInfo[id];
              OnlyEntry(s, SetServices(s, a, nServices), id, info.(addr := info.addr.(nServices := nServices)))
  {
    assert Find(s, a).Some? ==> (Named(s, a) <==> Names(s, a, Find(s, a).value));
  }

  /** The count of failures is as before, or one more if none had been counted since the last success. */
  ghost predicate CountedOnce(s: State, s': State) {
    && s'.nLastGood == s.nLastGood && s.nIdCount <= s'.nIdCount
    && (forall id :: id in s'.mapInfo ==> id in s.mapInfo || id >= s.nIdCount)
    && forall id :: id in s.mapInfo && id in s'.mapInfo ==>
         var info, info' := s.mapInfo[id], s'.mapInfo[id];
         && info'.nLastCountAttempt >= info.nLastCountAttempt
         && (|| info'.nAttempts == info.nAttempts
             || (info'.nAttempts == info.nAttempts + 1
                 && info.nLastCountAttempt < s.nLastGood <= info'.nLastCountAttempt))
  }

  /** An operation that is not a success, and whose clock is not behind the last one. */
  ghost predicate NoSuccess(s: State, op: Op) {
    !op.GoodOp? && (op.AttemptOp? ==> op.nTime >= s.nLastGood)
  }

  /** No entry that stays has other counts, and no id is used again. */
  ghost predicate CountsFrom(s: State, s': State) {
    && s'.nLastGood == s.nLastGood && s.nIdCount <= s'.nIdCount
    && (forall id :: id in s'.mapInfo ==> id in s.mapInfo || id >= s.nIdCount)
    && forall id :: id in s.mapInfo && id in s'.mapInfo ==>
         && s'.mapInfo[id].nAttempts == s.mapInfo[id].nAttempts
         && s'.mapInfo[id].nLastCountAttempt == s.mapInfo[id].nLastCountAttempt
  }

  lemma OfferCounts(s: State, id: int, source: NetAddr, now: int)
    requires id in s.mapInfo
    requires Between(s, if s.mapInfo[id].nRefCount == 0 then {id} else {}, 0)
    ensures CountsFrom(s, Offer(s, id, source, now))
  {
    var slot := NewSlot(s.cfg, s.mapInfo[id].addr.service, source);
    if slot in s.vvNew && s.vvNew[slot] == id {
    } else if slot !in s.vvNew || IsTerrible(s.mapInfo[s.vvNew[slot]], now)
              || (s.mapInfo[s.vvNew[slot]].nRefCount > 1 && s.mapInfo[id].nRefCount == 0) {
      ClearNewKeeps(s, slot, if s.mapInfo[id].nRefCount == 0 then {id} else {}, 0);
      TakeSurvivors(s, slot, id);
      TakeCounters(s, slot, id);
    } else if s.mapInfo[id].nRefCount == 0 {
      FloatingDeletable(s, id, {id}, 0);
      DeleteSpares(s, id);
    }
  }

  lemma TakeCounters(s: State, slot: Slot, id: int)
    requires Clearable(s, slot) && id in ClearNew(s, slot).mapInfo
    ensures var s' := AddRef(ClearNew(s, slot), slot, id); s'.nLastGood == s.nLastGood && s'.nIdCount == s.nIdCount
  {
    if slot in s.vvNew && DropRef(s, slot).mapInfo[s.vvNew[slot]].nRefCount == 0 {
      DeleteSpares(DropRef(s, slot), s.vvNew[slot]);
    }
  }

  lemma AddKnownCounts(s: State, id: int, a: Address, source: NetAddr, penalty: int, now: int, unlucky: bool)
    requires Sound(s) && id in s.mapInfo
    ensures CountsFrom(s, AddKnown(s, id, a, source, penalty, now, unlucky))
  {
    var s1 := Update(s, id, Refreshed(s.mapInfo[id], a, penalty, now));
    StatsKeep(s, s1, id);
    if !s1.mapInfo[id].fInTried {
      RefsAtLeastOne(s1, id);
      OfferedCounts(s, s1, id, source, now);
    }
  }

  lemma CreatedCounts(s: State, a: Address, source: NetAddr, penalty: int)
    requires IdsOk(s.mapInfo, s.nIdCount)
    ensures var s1 := Created(s, a, source, penalty); CountsFrom(s, s1) && s.mapInfo.Keys <= s1.mapInfo.Keys
    ensures s.nIdCount in Created(s, a, source, penalty).mapInfo
    ensures Created(s, a, source, penalty).mapInfo[s.nIdCount].nRefCount == 0
  {
  }

  lemma AddCounts(s: State, a: Address, source: NetAddr, nTimePenalty: int, now: int, unlucky: bool)
    requires Sound(s)
    ensures CountsFrom(s, Add(s, a, source, nTimePenalty, now, unlucky))
  {
    if s.cfg.routable(a.service) {
      var penalty := if a.service.ip == source then 0 else nTimePenalty;
      var found := Find(s, a.service);
      if found.Some? {
        AddKnownCounts(s, found.value, a, source, penalty, now, unlucky);
      } else {
        CreatedKeeps(s, a, source, penalty);
        CreatedCounts(s, a, source, penalty);
        OfferedCounts(s, Created(s, a, source, penalty), s.nIdCount, source, now);
      }
    }
  }

  lemma OfferedCounts(s: State, s1: State, id: int, source: NetAddr, now: int)
    requires CountsFrom(s, s1) && s.mapInfo.Keys <= s1.mapInfo.Keys && id in s1.mapInfo
    requires Between(s1, if s1.mapInfo[id].nRefCount == 0 then {id} else {}, 0)
    ensures CountsFrom(s, Offer(s1, id, source, now))
  {
    OfferCounts(s1, id, source, now);
  }

  lemma StepCountsOnce(s: State, op: Op, s': State)
    requires Sound(s) && Step(s, op, s') && NoSuccess(s, op)
    ensures CountedOnce(s, s')
  {
    match op
    case AddOp(a, source, nTimePenalty, now, unlucky) => AddCounts(s, a, source, nTimePenalty, now, unlucky);
    case AttemptOp(service, fCountFailure, nTime) => AttemptCountsOnce(s, service, fCountFailure, nTime);
    case ConnectedOp(_, _) =>
    case SetServicesOp(_, _) =>
    case GetAddrOp =>
  }

  lemma AttemptCountsOnce(s: State, a: Service, fCountFailure: bool, nTime: int)
    requires nTime >= s.nLastGood
    ensures CountedOnce(s, Attempt(s, a, fCountFailure, nTime))
  {
  }

  lemma CountedThrough(s: State, s1: State, s': State)
    requires IdsOk(s.mapInfo, s.nIdCount) && CountedOnce(s, s1) && CountedOnce(s1, s')
    ensures CountedOnce(s, s')
  {
    forall id | id in s.mapInfo && id in s'.mapInfo ensures id in s1.mapInfo {
      assert id < s.nIdCount;
    }
  }

  /** Between two successes of any address, failures of an address count at most once, whatever else happens. */
  lemma {:induction false} FailuresCountOnce(s: State, ops: seq<Op>, s': State)
    requires Sound(s) && Run(s, ops, s') && forall i :: 0 <= i < |ops| ==> NoSuccess(s, ops[i])
    ensures CountedOnce(s, s')
    decreases |ops|
  {
    if ops != [] {
      var s1 :| Step(s, ops[0], s1) && Run(s1, ops[1..], s');
      StepKeepsInv(s, ops[0], s1);
      StepCountsOnce(s, ops[0], s1);
      FailuresCountOnce(s1, ops[1..], s');
      CountedThrough(s, s1, s');
    }
  }

  /** The clause of `Check_` on mapAddr (src/addrman.cpp:429) looks the entry up under its full service. */
  ghost predicate CheckAddr(s: State) {
    forall id :: id in s.mapInfo ==>
      (if s.mapInfo[id].addr.service in s.mapAddr then s.mapAddr[s.mapInfo[id].addr.service] else 0) == id
  }

  /** ... so on a consistent manager it passes exactly when normalising changes no address but that of id 0. */
  lemma CheckAddrPassesIff(s: State)
    requires Inv(s)
    ensures CheckAddr(s) <==>
              s.cfg.discriminatePorts ||
              forall id :: id in s.mapInfo ==> s.mapInfo[id].addr.service.port == 0 || id == 0
  {
    if !s.cfg.discriminatePorts {
      forall id | id in s.mapInfo
        ensures s.mapInfo[id].addr.service.port != 0 ==> s.mapInfo[id].addr.service !in s.mapAddr
      {
      }
    }
  }

  /** It fails after two additions, if ports are not told apart and the second address has one. */
  lemma CheckAddrFails(c: Config, a: Address, b: Address, source: NetAddr, now: int)
    requires !c.discriminatePorts && c.routable(a.service) && c.routable(b.service)
    requires a.service.ip != b.service.ip && b.service.port != 0
    requires NewSlot(c, a.service, source) != NewSlot(c, b.service, source)
    ensures exists s ::
              Run(Fresh(c), [AddOp(a, source, 0, now, false), AddOp(b, source, 0, now, false)], s) && !CheckAddr(s)
  {
    FreshInv(c);
    var s1 := Add(Fresh(c), a, source, 0, now, false);
    AddToFreeSlot(Fresh(c), a, source, 0, now, false);
    AddKeeps(Fresh(c), a, source, 0, now, false);
    var s2 := Add(s1, b, source, 0, now, false);
    AddToFreeSlot(s1, b, source, 0, now, false);
    AddKeeps(s1, b, source, 0, now, false);
    CheckAddrPassesIff(s2);
    TwoSteps(Fresh(c), AddOp(a, source, 0, now, false), s1, AddOp(b, source, 0, now, false), s2);
  }

  lemma OneStep(s: State, op: Op, s1: State)
    requires Sound(s) && Step(s, op, s1)
    ensures Run(s, [op], s1)
  {
    assert [op][1..] == [];
    assert Run(s1, [], s1);
  }

  lemma TwoSteps(s: State, op1: Op, s1: State, op2: Op, s2: State)
    requires Sound(s) && Step(s, op1, s1) && Sound(s1) && Step(s1, op2, s2)
    ensures Run(s, [op1, op2], s2)
  {
    OneStep(s1, op2, s2);
    assert [op1, op2][1..] == [op2];
  }

  // ----- Times -----

  /** What `Check_` wants of the times: none is negative, and a tried entry has been reached once. */
  ghost predicate TimeOk(info: Info) {
    info.nLastTry >= 0 && info.nLastSuccess >= 0 && (info.fInTried ==> info.nLastSuccess != 0)
  }

  ghost predicate Timed(s: State) {
    forall id :: id in s.mapInfo ==> TimeOk(s.mapInfo[id])
  }

  /** No entry of `s'` has other times than in `s`, and none but `id` has become a tried one. */
  ghost predicate TimesFrom(s: State, s': State, id: int) {
    && s'.cfg == s.cfg
    && forall x :: x in s'.mapInfo ==>
         && x in s.mapInfo
         && s'.mapInfo[x].nLastTry == s.mapInfo[x].nLastTry && s'.mapInfo[x].nLastSuccess == s.mapInfo[x].nLastSuccess
         && (s'.mapInfo[x].fInTried ==> s.mapInfo[x].fInTried || x == id)
  }

  lemma TimesThrough(s: State, s1: State, s2: State, id: int)
    requires TimesFrom(s, s1, id) && TimesFrom(s1, s2, id)
    ensures TimesFrom(s, s2, id)
  {
  }

  lemma TimesKept(s: State, s': State, id: int)
    requires Timed(s) && TimesFrom(s, s', id)
             && (id in s.mapInfo ==> s.mapInfo[id].nLastSuccess != 0 || s.mapInfo[id].fInTried)
    ensures Timed(s')
  {
  }

  lemma SurvivorTimes(s: State, s': State, id: int)
    requires Survivors(s, s') && s'.cfg == s.cfg
    ensures TimesFrom(s, s', id)
  {
  }

  lemma EvictTimes(s: State, slot: Slot, id: int)
    requires Between(s, {id}, 1) && slot in s.vvTried
    ensures TimesFrom(s, Evict(s, slot, id), id)
  {
    UntryKeeps(s, slot, {id}, 1);
    var moved := s.vvTried[slot];
    var s1 := Untry(s, slot);
    var newSlot := NewSlot(s.cfg, s.mapInfo[moved].addr.service, s.mapInfo[moved].source);
    EnterKeeps(s1, newSlot, moved, {id} + {moved}, 2);
    EnterTimes(s1, newSlot, moved, id);
    UntryTimes(s, slot, id);
    TimesThrough(s, s1, Evict(s, slot, id), id);
  }

  lemma EnterTimes(s: State, slot: Slot, moved: int, id: int)
    requires Clearable(s, slot) && moved in s.mapInfo && !(slot in s.vvNew && s.vvNew[slot] == moved)
    ensures TimesFrom(s, Enter(s, slot, moved), id)
  {
    EnterSpares(s, slot, moved);
    SurvivorTimes(s, Enter(s, slot, moved), id);
  }

  lemma UntryTimes(s: State, slot: Slot, id: int)
    requires slot in s.vvTried && s.vvTried[slot] in s.mapInfo
    ensures TimesFrom(s, Untry(s, slot), id)
  {
  }

  lemma UnlistTimes(s: State, id: int)
    requires id in s.mapInfo
    ensures TimesFrom(s, Unlist(s, id), id)
  {
  }

  lemma TryTimes(s: State, slot: Slot, id: int)
    requires id in s.mapInfo
    ensures TimesFrom(s, Try(s, slot, id), id)
  {
  }

  lemma EvictTryTimes(s: State, slot: Slot, id: int)
    requires Between(s, {id}, 1) && slot in s.vvTried
    ensures id in Evict(s, slot, id).mapInfo && TimesFrom(s, Try(Evict(s, slot, id), slot, id), id)
  {
    EvictKeeps(s, slot, id);
    EvictTimes(s, slot, id);
    TryTimes(Evict(s, slot, id), slot, id);
    TimesThrough(s, Evict(s, slot, id), Try(Evict(s, slot, id), slot, id), id);
  }

  lemma MakeTriedTimes(s: State, id: int)
    requires Sound(s) && id in s.mapInfo && !s.mapInfo[id].fInTried
    ensures TimesFrom(s, MakeTried(s, id), id)
  {
    UnlistKeeps(s, id);
    UnlistTimes(s, id);
    var s1 := Unlist(s, id);
    var slot := TriedSlot(s.cfg, s.mapInfo[id].addr.service);
    if slot in s1.vvTried {
      EvictTryTimes(s1, slot, id);
    } else {
      TryTimes(s1, slot, id);
    }
    TimesThrough(s, s1, MakeTried(s, id), id);
  }

  lemma GoodTimes(s: State, a: Service, nTime: int)
    requires Sound(s) && Timed(s) && nTime > 0
    ensures Timed(Good(s, a, nTime)) && Good(s, a, nTime).cfg == s.cfg
  {
    var found := Find(s, a);
    if found.Some? && s.mapInfo[found.value].addr.service == a && !s.mapInfo[found.value].fInTried {
      var id := found.value;
      var s1 := Update(s.(nLastGood := nTime), id,
                       s.mapInfo[id].(nLastSuccess := nTime, nLastTry := nTime, nAttempts := 0));
      StatsKeep(s, s1, id);
      MakeTriedTimes(s1, id);
      TimesKept(s1, MakeTried(s1, id), id);
    }
  }

  lemma SurvivorsTimed(s: State, s': State)
    requires Timed(s) && Survivors(s, s')
    ensures Timed(s')
  {
  }

  lemma TakeSurvivors(s: State, slot: Slot, id: int)
    requires Clearable(s, slot) && id in s.mapInfo && !(slot in s.vvNew && s.vvNew[slot] == id)
    ensures id in ClearNew(s, slot).mapInfo && Survivors(s, AddRef(ClearNew(s, slot), slot, id))
    ensures AddRef(ClearNew(s, slot), slot, id).cfg == s.cfg
  {
    ClearNewSpares(s, slot);
  }

  lemma OfferTimes(s: State, id: int, source: NetAddr, now: int)
    requires id in s.mapInfo && !s.mapInfo[id].fInTried
    requires Between(s, if s.mapInfo[id].nRefCount == 0 then {id} else {}, 0)
    requires Timed(s)
    ensures Timed(Offer(s, id, source, now)) && Offer(s, id, source, now).cfg == s.cfg
  {
    var slot := NewSlot(s.cfg, s.mapInfo[id].addr.service, source);
    if slot in s.vvNew && s.vvNew[slot] == id {
    } else if slot !in s.vvNew || IsTerrible(s.mapInfo[s.vvNew[slot]], now)
              || (s.mapInfo[s.vvNew[slot]].nRefCount > 1 && s.mapInfo[id].nRefCount == 0) {
      ClearNewKeeps(s, slot, if s.mapInfo[id].nRefCount == 0 then {id} else {}, 0);
      TakeSurvivors(s, slot, id);
      SurvivorsTimed(s, AddRef(ClearNew(s, slot), slot, id));
    } else if s.mapInfo[id].nRefCount == 0 {
      FloatingDeletable(s, id, {id}, 0);
      DeleteSpares(s, id);
      SurvivorsTimed(s, Delete(s, id));
    }
  }

  lemma AddKnownTimes(s: State, id: int, a: Address, source: NetAddr, penalty: int, now: int, unlucky: bool)
    requires Sound(s) && Timed(s) && id in s.mapInfo
    ensures var s' := AddKnown(s, id, a, source, penalty, now, unlucky); Timed(s') && s'.cfg == s.cfg
  {
    var s1 := Update(s, id, Refreshed(s.mapInfo[id], a, penalty, now));
    StatsKeep(s, s1, id);
    if !s1.mapInfo[id].fInTried {
      OfferTimes(s1, id, source, now);
    }
  }

  lemma CreatedTimes(s: State, a: Address, source: NetAddr, penalty: int)
    requires Timed(s)
    ensures Timed(Created(s, a, source, penalty)) && Created(s, a, source, penalty).cfg == s.cfg
  {
  }

  lemma AddTimes(s: State, a: Address, source: NetAddr, nTimePenalty: int, now: int, unlucky: bool)
    requires Sound(s) && Timed(s)
    ensures var s' := Add(s, a, source, nTimePenalty, now, unlucky); Timed(s') && s'.cfg == s.cfg
  {
    if s.cfg.routable(a.service) {
      var penalty := if a.service.ip == source then 0 else nTimePenalty;
      var found := Find(s, a.service);
      if found.Some? {
        AddKnownTimes(s, found.value, a, source, penalty, now, unlucky);
      } else {
        CreatedKeeps(s, a, source, penalty);
        CreatedTimes(s, a, source, penalty);
        OfferTimes(Created(s, a, source, penalty), s.nIdCount, source, now);
      }
    }
  }

  /** The clock gives positive times. */
  ghost predicate PositiveTime(op: Op) {
    match op
    case GoodOp(_, nTime) => nTime > 0
    case AttemptOp(_, _, nTime) => nTime > 0
    case _ => true
  }

  lemma StepKeepsTimes(s: State, op: Op, s': State)
    requires Sound(s) && Timed(s) && Step(s, op, s') && PositiveTime(op)
    ensures Timed(s') && s'.cfg == s.cfg
  {
    match op
    case AddOp(a, source, nTimePenalty, now, unlucky) => AddTimes(s, a, source, nTimePenalty, now, unlucky);
    case GoodOp(service, nTime) => GoodTimes(s, service, nTime);
    case AttemptOp(_, _, _) =>
    case ConnectedOp(_, _) =>
    case SetServicesOp(_, _) =>
    case GetAddrOp =>
  }

  lemma {:induction false} RunKeepsTimes(s: State, ops: seq<Op>, s': State)
    requires Sound(s) && Timed(s) && Run(s, ops, s') && forall i :: 0 <= i < |ops| ==> PositiveTime(ops[i])
    ensures Timed(s') && s'.cfg == s.cfg
    decreases |ops|
  {
    if ops != [] {
      var s1 :| Step(s, ops[0], s1) && Run(s1, ops[1..], s');
      StepKeepsInv(s, ops[0], s1);
      StepKeepsTimes(s, ops[0], s1);
      RunKeepsTimes(s1, ops[1..], s');
    }
  }

  // ----- The whole of Check_ -----

  /** What `Check_` tests of an entry (src/addrman.cpp:413-441), apart from the index by address. */
  ghost predicate EntryPasses(s: State, id: int)
    requires id in s.mapInfo
  {
    var info := s.mapInfo[id];
    && (if info.fInTried then info.nLastSuccess != 0 && info.nRefCount == 0
        else 0 < info.nRefCount <= NEW_BUCKETS_PER_ADDRESS)
    && 0 <= info.nRandomPos < |s.vRandom| && s.vRandom[info.nRandomPos] == id
    && info.nLastTry >= 0 && info.nLastSuccess >= 0
  }

  /** `Check_` returns 0: its tests of sizes, entries, the two tables and the key, one by one. */
  ghost predicate CheckPasses(s: State) {
    && |s.vRandom| == s.nTried + s.nNew
    && (forall id :: id in s.mapInfo ==> EntryPasses(s, id))
    && CheckAddr(s)
    && |TriedIds(s.mapInfo)| == s.nTried && |NewIds(s.mapInfo)| == s.nNew
    && (forall slot :: slot in s.vvTried ==>
          s.vvTried[slot] in TriedIds(s.mapInfo) && slot == TriedSlot(s.cfg, s.mapInfo[s.vvTried[slot]].addr.service))
    && (forall slot :: slot in s.vvNew ==>
          && s.vvNew[slot] in NewIds(s.mapInfo)
          && slot.pos == BucketPosition(s.cfg, s.mapInfo[s.vvNew[slot]].addr.service, true, slot.bucket))
    && (forall id :: id in TriedIds(s.mapInfo) ==> |Refs(s.vvTried, id)| == 1)
    && (forall id :: id in NewIds(s.mapInfo) ==> |Refs(s.vvNew, id)| == s.mapInfo[id].nRefCount)
    && s.cfg.nKey != 0
  }

  /** The slots of the new table are those of an array of this many buckets, and ids are given out in order. */
  ghost predicate Shaped(s: State) {
    IdsOk(s.mapInfo, s.nIdCount) && forall slot :: slot in s.vvNew ==> slot.bucket < NEW_BUCKET_COUNT
  }

  /** `Check_` tests exactly for a sound manager with proper times, an index by full service and a key. */
  lemma CheckPassesMeans(s: State)
    requires Shaped(s)
    ensures CheckPasses(s) <==> Sound(s) && Timed(s) && CheckAddr(s) && s.cfg.nKey != 0
  {
    if Sound(s) && Timed(s) && CheckAddr(s) && s.cfg.nKey != 0 {
      SoundPasses(s);
    }
    if CheckPasses(s) {
      PassesSound(s);
    }
  }

  lemma SoundPasses(s: State)
    requires Sound(s) && Timed(s) && CheckAddr(s) && s.cfg.nKey != 0
    ensures CheckPasses(s)
  {
    SizesAgree(s);
    forall id | id in TriedIds(s.mapInfo) ensures |Refs(s.vvTried, id)| == 1 {
      TriedOnce(s.cfg, s.mapInfo, s.vvTried, id);
    }
    forall slot | slot in s.vvNew ensures s.vvNew[slot] in NewIds(s.mapInfo) {
      assert slot in Refs(s.vvNew, s.vvNew[slot]);
    }
  }

  lemma TriedOnce(c: Config, m: map<int, Info>, t: Table, id: int)
    requires TriedTableOk(c, m, t) && id in m && m[id].fInTried
    ensures |Refs(t, id)| == 1
  {
    assert Refs(t, id) == {TriedSlot(c, m[id].addr.service)};
  }

  lemma PassesSound(s: State)
    requires Shaped(s) && CheckPasses(s)
    ensures Sound(s) && Timed(s)
  {
    forall id | id in s.mapInfo ensures EntryPasses(s, id) {
    }
    KeysSplit(s.mapInfo);
    PositionsFill(s.mapInfo, s.vRandom);
    PassesTables(s);
  }

  lemma PassesTables(s: State)
    requires CheckPasses(s)
    ensures RefsOk(s.mapInfo, s.vvNew, {}) && TriedTableOk(s.cfg, s.mapInfo, s.vvTried)
  {
    forall id | id in s.mapInfo ensures s.mapInfo[id].nRefCount == |Refs(s.vvNew, id)| && EntryPasses(s, id) {
      if s.mapInfo[id].fInTried {
        assert Refs(s.vvNew, id) == {};
      } else {
        assert id in NewIds(s.mapInfo);
      }
    }
    forall id | id in s.mapInfo && s.mapInfo[id].fInTried
      ensures var slot := TriedSlot(s.cfg, s.mapInfo[id].addr.service); slot in s.vvTried && s.vvTried[slot] == id
    {
      assert id in TriedIds(s.mapInfo);
      var slot :| slot in Refs(s.vvTried, id);
    }
  }

  lemma KeysSplit(m: map<int, Info>)
    ensures |NewIds(m)| + |TriedIds(m)| == |m.Keys|
  {
    assert m.Keys == NewIds(m) + TriedIds(m);
    assert NewIds(m) * TriedIds(m) == {};
  }

  /** As many positions as entries, and each entry at its own, leave no other. */
  lemma PositionsFill(m: map<int, Info>, v: seq<int>)
    requires |v| == |m.Keys| && forall id :: id in m ==> 0 <= m[id].nRandomPos < |v| && v[m[id].nRandomPos] == id
    ensures RandomOk(m, v)
  {
    var listed := Listed(v, |v|);
    forall id | id in m.Keys ensures id in listed {
      assert v[m[id].nRandomPos] == id;
    }
    ListedSize(v, |v|);
    assert listed == m.Keys + (listed - m.Keys);
    forall i | 0 <= i < |v| ensures v[i] in m && m[v[i]].nRandomPos == i {
      assert v[i] in listed;
    }
  }

  lemma {:induction false} ListedSize(v: seq<int>, n: nat)
    requires n <= |v|
    ensures |Listed(v, n)| <= n
    ensures |Listed(v, n)| == n ==> forall i, j :: 0 <= i < j < n ==> v[i] != v[j]
    decreases n
  {
    if n == 0 {
      assert Listed(v, 0) == {};
    } else {
      ListedSize(v, n - 1);
      assert Listed(v, n) == Listed(v, n - 1) + {v[n - 1]};
      if v[n - 1] in Listed(v, n - 1) {
        assert Listed(v, n) == Listed(v, n - 1);
      } else {
        forall i | 0 <= i < n - 1 ensures v[i] != v[n - 1] {
          assert v[i] in Listed(v, n - 1);
        }
      }
    }
  }

  /**
    On every run of a new manager with a key and a clock, `Check_` returns 0 if and only if
    ports are told apart or no entry but id 0 has one.
   */
  lemma CheckOnRuns(c: Config, ops: seq<Op>, s: State)
    requires Run(Fresh(c), ops, s) && c.nKey != 0 && forall i :: 0 <= i < |ops| ==> PositiveTime(ops[i])
    ensures CheckPasses(s) <==>
              c.discriminatePorts || forall id :: id in s.mapInfo ==> s.mapInfo[id].addr.service.port == 0 || id == 0
  {
    EveryRunIsConsistent(c, ops, s);
    FreshInv(c);
    RunKeepsTimes(Fresh(c), ops, s);
    CheckPassesMeans(s);
    CheckAddrPassesIff(s);
  }
}
