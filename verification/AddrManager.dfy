/**
  The address manager as the object it is (src/addrman.h:177-595): maps and a vector
  that its methods reassign, and two tables of integers that they update in place.
  Every method is proved to do to the object what the functions of module AddrMan do
  to its value; the asserts of the source appear as asserts.
 */
module AddrManager {
  import opened AddrMan
  import opened Basics

  ghost function AllSlots(buckets: nat): set<Slot> {
    set b: nat, i: nat | b < buckets && i < BUCKET_SIZE :: Slot(b, i)
  }

  ghost function CellOf(a: array2<int>, slot: Slot): int
    reads a
  {
    if slot.bucket < a.Length0 && slot.pos < a.Length1 then a[slot.bucket, slot.pos] else -1
  }

  /** The occupied slots of a table; -1 marks a free one. */
  ghost function TableOf(a: array2<int>): Table
    requires a.Length1 == BUCKET_SIZE
    reads a
  {
    map slot | slot in AllSlots(a.Length0) && CellOf(a, slot) != -1 :: CellOf(a, slot)
  }

  /** Write one cell of a table. */
  method SetSlot(a: array2<int>, slot: Slot, id: int)
    requires a.Length1 == BUCKET_SIZE
    requires slot.bucket < a.Length0 && slot.pos < BUCKET_SIZE
    modifies a
    ensures TableOf(a) == if id == -1 then old(TableOf(a)) - {slot} else old(TableOf(a))[slot := id]
  {
    a[slot.bucket, slot.pos] := id;
  }

  /** Read one cell of a table. */
  lemma Cell(a: array2<int>, slot: Slot)
    requires a.Length1 == BUCKET_SIZE
    requires slot.bucket < a.Length0 && slot.pos < BUCKET_SIZE
    ensures slot in TableOf(a) <==> a[slot.bucket, slot.pos] != -1
    ensures slot in TableOf(a) ==> TableOf(a)[slot] == a[slot.bucket, slot.pos]
  {
    assert slot in AllSlots(a.Length0);
  }

  class Manager {
    var cfg: Config
    var nIdCount: int
    var mapInfo: map<int, Info>
    var mapAddr: map<Service, int>
    var vRandom: seq<int>
    var nTried: int
    var nNew: int
    var nLastGood: int
    const vvTried: array2<int>
    const vvNew: array2<int>

    ghost predicate Shape() {
      && vvTried != vvNew
      && vvTried.Length0 == TRIED_BUCKET_COUNT && vvTried.Length1 == BUCKET_SIZE
      && vvNew.Length0 == NEW_BUCKET_COUNT && vvNew.Length1 == BUCKET_SIZE
    }

    /** The value of the object. */
    ghost function Abs(): State
      requires Shape()
      reads this, vvTried, vvNew
    {
      State(cfg, nIdCount, mapInfo, mapAddr, vRandom, nTried, TableOf(vvTried), nNew, TableOf(vvNew), nLastGood)
    }

    ghost predicate Valid()
      reads this, vvTried, vvNew
    {
      Shape() && Sound(Abs())
    }

    /** Construction calls `Clear` on fresh members. */
    constructor (c: Config)
      ensures Valid() && Indexed(Abs()) && Abs() == Fresh(c)
      ensures nIdCount == 0 && mapInfo == map[] && vRandom == [] && nLastGood == 1
      ensures fresh(vvTried) && fresh(vvNew)
    {
      cfg := c;
      nIdCount, nTried, nNew, nLastGood := 0, 0, 0, 1;
      mapInfo, mapAddr, vRandom := map[], map[], [];
      vvTried := new int[TRIED_BUCKET_COUNT, BUCKET_SIZE];
      vvNew := new int[NEW_BUCKET_COUNT, BUCKET_SIZE];
      new;
      ClearTable(vvNew);
      ClearTable(vvTried);
      FreshInv(c);
    }

    static method ClearTable(a: array2<int>)
      requires a.Length1 == BUCKET_SIZE
      modifies a
      ensures TableOf(a) == map[]
    {
      for b := 0 to a.Length0
        invariant forall b', i :: 0 <= b' < b && 0 <= i < BUCKET_SIZE ==> a[b', i] == -1
      {
        for i := 0 to BUCKET_SIZE
          invariant forall b', i :: 0 <= b' < b && 0 <= i < BUCKET_SIZE ==> a[b', i] == -1
          invariant forall i' :: 0 <= i' < i ==> a[b, i'] == -1
        {
          a[b, i] := -1;
        }
      }
    }

    method FindId(a: Service) returns (found: Option<int>)
      requires Shape()
      ensures found == Find(Abs(), a)
    {
      var key := if cfg.discriminatePorts then a else Service(a.ip, 0);
      if key !in mapAddr {
        return None;
      }
      var id := mapAddr[key];
      if id !in mapInfo {
        return None;
      }
      return Some(id);
    }

    method CreateEntry(a: Address, source: NetAddr) returns (id: int)
      requires Shape()
      modifies this
      ensures Abs() == Create(old(Abs()), a, source) && id == old(nIdCount)
    {
      var key := if cfg.discriminatePorts then a.service else Service(a.service.ip, 0);
      id := nIdCount;
      nIdCount := nIdCount + 1;
      mapInfo := mapInfo[id := Info(a, source, 0, 0, 0, false, -1, 0, 0)];
      mapAddr := mapAddr[key := id];
      mapInfo := mapInfo[id := mapInfo[id].(nRandomPos := |vRandom|)];
      vRandom := vRandom + [id];
    }

    method Swap(i: nat, j: nat)
      requires Shape()
      requires i != j ==> i < |vRandom| && j < |vRandom| && vRandom[i] in mapInfo && vRandom[j] in mapInfo
      modifies this
      ensures i == j ==> Abs() == old(Abs())
      ensures i != j ==> Abs() == SwapRandom(old(Abs()), i, j)
    {
      if i == j {
        return;
      }
      assert i < |vRandom| && j < |vRandom|;
      var id1, id2 := vRandom[i], vRandom[j];
      assert id1 in mapInfo && id2 in mapInfo;
      mapInfo := mapInfo[id1 := mapInfo[id1].(nRandomPos := j)];
      mapInfo := mapInfo[id2 := mapInfo[id2].(nRandomPos := i)];
      vRandom := vRandom[i := id2];
      vRandom := vRandom[j := id1];
    }

    method DeleteEntry(id: int)
      requires Shape() && Deletable(Abs(), id)
      modifies this
      ensures Abs() == Delete(old(Abs()), id)
    {
      assert id in mapInfo;
      var info := mapInfo[id];
      assert !info.fInTried;
      assert info.nRefCount == 0;
      var key := if cfg.discriminatePorts then info.addr.service else Service(info.addr.service.ip, 0);
      Swap(info.nRandomPos, |vRandom| - 1);
      Forget(id, key);
    }

    /** The end of `Delete`: pop vRandom and erase the entry from both maps. */
    method Forget(id: int, key: Service)
      requires Shape() && id in mapInfo && vRandom != [] && key == Normal(cfg, mapInfo[id].addr.service)
      modifies this
      ensures Abs() == DropLast(old(Abs()), id)
    {
      vRandom := vRandom[..|vRandom| - 1];
      mapAddr := mapAddr - {key};
      mapInfo := mapInfo - {id};
      nNew := nNew - 1;
    }

    method ClearSlot(slot: Slot)
      requires Shape() && Clearable(Abs(), slot)
      requires slot.bucket < NEW_BUCKET_COUNT && slot.pos < BUCKET_SIZE
      requires slot in Abs().vvNew ==> mapInfo[Abs().vvNew[slot]].nRefCount > 0
      modifies this, vvNew
      ensures Abs() == ClearNew(old(Abs()), slot)
    {
      Cell(vvNew, slot);
      if vvNew[slot.bucket, slot.pos] != -1 {
        var id := vvNew[slot.bucket, slot.pos];
        var info := mapInfo[id];
        assert info.nRefCount > 0;
        mapInfo := mapInfo[id := info.(nRefCount := info.nRefCount - 1)];
        SetSlot(vvNew, slot, -1);
        assert Abs() == DropRef(old(Abs()), slot);
        if mapInfo[id].nRefCount == 0 {
          DeleteEntry(id);
        }
      }
    }

    /** The first loop of `MakeTried`: take the entry out of every new bucket. */
    method RemoveFromNew(id: int)
      requires Shape() && id in mapInfo && id >= 0
      requires NewTableOk(cfg, mapInfo, TableOf(vvNew))
      requires mapInfo[id].nRefCount == |Refs(TableOf(vvNew), id)|
      modifies this`mapInfo, this`nNew, vvNew
      ensures Abs() == Unlist(old(Abs()), id)
    {
      ghost var s0 := Abs();
      var service := mapInfo[id].addr.service;
      var nRefCount := mapInfo[id].nRefCount;
      BelowNone(s0.vvNew, id);
      for bucket := 0 to NEW_BUCKET_COUNT
        invariant TableOf(vvNew) == Below(s0.vvNew, id, bucket)
        invariant nRefCount == |Refs(Below(s0.vvNew, id, bucket), id)|
        invariant mapInfo == s0.mapInfo && nNew == s0.nNew
      {
        var pos := cfg.positionHash(cfg.nKey, true, bucket, service) % BUCKET_SIZE;
        Cell(vvNew, Slot(bucket, pos));
        BelowNext(s0, id, bucket, pos);
        if vvNew[bucket, pos] == id {
          SetSlot(vvNew, Slot(bucket, pos), -1);
          nRefCount := nRefCount - 1;
        }
      }
      BelowAll(s0, id);
      assert nRefCount == 0;
      mapInfo := mapInfo[id := mapInfo[id].(nRefCount := nRefCount)];
      nNew := nNew - 1;
    }

    /** The table without the slots of `id` in the buckets below `bucket`. */
    static ghost function Below(t: Table, id: int, bucket: nat): Table {
      t - (set slot | slot in t && t[slot] == id && slot.bucket < bucket)
    }

    static lemma BelowNone(t: Table, id: int)
      ensures Below(t, id, 0) == t
    {
    }

    static lemma BelowNext(s: State, id: int, bucket: nat, pos: nat)
      requires NewTableOk(s.cfg, s.mapInfo, s.vvNew) && id in s.mapInfo
      requires pos == BucketPosition(s.cfg, s.mapInfo[id].addr.service, true, bucket)
      ensures var t := Below(s.vvNew, id, bucket);
              var t' := Below(s.vvNew, id, bucket + 1);
              var slot := Slot(bucket, pos);
              if slot in t && t[slot] == id
              then t' == t - {slot} && |Refs(t', id)| == |Refs(t, id)| - 1
              else t' == t
    {
      var t := Below(s.vvNew, id, bucket);
      var t' := Below(s.vvNew, id, bucket + 1);
      var slot := Slot(bucket, pos);
      if slot in t && t[slot] == id {
        assert t' == t - {slot};
        RefsWithout(t, slot, id);
      } else {
        assert t' == t;
      }
    }

    static lemma BelowAll(s: State, id: int)
      requires NewTableOk(s.cfg, s.mapInfo, s.vvNew)
      ensures Below(s.vvNew, id, NEW_BUCKET_COUNT) == s.vvNew - Refs(s.vvNew, id)
      ensures Refs(Below(s.vvNew, id, NEW_BUCKET_COUNT), id) == {}
    {
    }

    /** Lines 187-190: the entry in a tried slot leaves the tried table. */
    method UntrySlot(slot: Slot) returns (moved: int)
      requires Shape()
      requires slot.bucket < TRIED_BUCKET_COUNT && slot.pos < BUCKET_SIZE
      requires slot in TableOf(vvTried) && TableOf(vvTried)[slot] in mapInfo
      modifies this`mapInfo, this`nTried, vvTried
      ensures moved == old(TableOf(vvTried))[slot]
      ensures Abs() == Untry(old(Abs()), slot)
    {
      Cell(vvTried, slot);
      moved := vvTried[slot.bucket, slot.pos];
      mapInfo := mapInfo[moved := mapInfo[moved].(fInTried := false)];
      SetSlot(vvTried, slot, -1);
      nTried := nTried - 1;
    }

    /** Lines 195-201: an entry without a slot enters the new table, whatever is there being cleared. */
    method EnterSlot(slot: Slot, id: int)
      requires Shape() && Clearable(Abs(), slot)
      requires slot.bucket < NEW_BUCKET_COUNT && slot.pos < BUCKET_SIZE
      requires slot in TableOf(vvNew) ==> mapInfo[TableOf(vvNew)[slot]].nRefCount > 0
      requires id in mapInfo && id >= 0 && mapInfo[id].nRefCount == 0
      requires !(slot in TableOf(vvNew) && TableOf(vvNew)[slot] == id)
      modifies this, vvNew
      ensures Abs() == Enter(old(Abs()), slot, id)
    {
      ghost var s := Abs();
      ClearNewSpares(s, slot);
      ClearSlot(slot);
      Cell(vvNew, slot);
      assert vvNew[slot.bucket, slot.pos] == -1;
      mapInfo := mapInfo[id := mapInfo[id].(nRefCount := 1)];
      SetSlot(vvNew, slot, id);
      nNew := nNew + 1;
    }

    /** Lines 205-207: an entry takes a free tried slot. */
    method TrySlot(slot: Slot, id: int)
      requires Shape() && id in mapInfo && id >= 0
      requires slot.bucket < TRIED_BUCKET_COUNT && slot.pos < BUCKET_SIZE
      requires slot !in TableOf(vvTried)
      modifies this`mapInfo, this`nTried, vvTried
      ensures Abs() == Try(old(Abs()), slot, id)
    {
      Cell(vvTried, slot);
      assert vvTried[slot.bucket, slot.pos] == -1;
      SetSlot(vvTried, slot, id);
      nTried := nTried + 1;
      mapInfo := mapInfo[id := mapInfo[id].(fInTried := true)];
    }

    /** Lines 182-201: the entry in a tried slot goes back to the new table. */
    method EvictEntry(slot: Slot, ghost id: int)
      requires Shape() && Between(Abs(), {id}, 1)
      requires slot.bucket < TRIED_BUCKET_COUNT && slot.pos < BUCKET_SIZE
      requires slot in Abs().vvTried
      modifies this, vvNew, vvTried
      ensures Abs() == Evict(old(Abs()), slot, id)
    {
      ghost var s0 := Abs();
      UntryKeeps(s0, slot, {id}, 1);
      var moved := UntrySlot(slot);
      var service := mapInfo[moved].addr.service;
      var bucket := cfg.newHash(cfg.nKey, service, mapInfo[moved].source) % NEW_BUCKET_COUNT;
      var newSlot := Slot(bucket, cfg.positionHash(cfg.nKey, true, bucket, service) % BUCKET_SIZE);
      CanEnter(Abs(), newSlot, moved, id);
      EnterSlot(newSlot, moved);
    }

    static lemma CanEnter(s: State, slot: Slot, moved: int, id: int)
      requires Between(s, {id} + {moved}, 2) && moved in s.mapInfo
      requires slot == NewSlot(s.cfg, s.mapInfo[moved].addr.service, s.mapInfo[moved].source)
      ensures Clearable(s, slot) && !(slot in s.vvNew && s.vvNew[slot] == moved)
      ensures slot in s.vvNew ==> s.mapInfo[s.vvNew[slot]].nRefCount > 0
      ensures s.mapInfo[moved].nRefCount == 0 && moved >= 0
    {
      EnterKeeps(s, slot, moved, {id} + {moved}, 2);
      SlotHolder(s, slot, {id} + {moved}, 2);
    }

    static lemma SlotHolder(s: State, slot: Slot, floating: set<int>, uncounted: int)
      requires Between(s, floating, uncounted)
      ensures Clearable(s, slot)
      ensures slot in s.vvNew ==> s.mapInfo[s.vvNew[slot]].nRefCount > 0
    {
      if slot in s.vvNew {
        DropRefKeeps(s, slot, floating, uncounted);
      }
    }

    /** `MakeTried`. */
    method MoveToTried(id: int)
      requires Valid() && id in mapInfo && !mapInfo[id].fInTried
      modifies this, vvNew, vvTried
      ensures Abs() == MakeTried(old(Abs()), id)
    {
      UnlistKeeps(Abs(), id);
      RemoveFromNew(id);
      assert mapInfo[id].nRefCount == 0;
      var service := mapInfo[id].addr.service;
      var bucket := cfg.triedHash(cfg.nKey, service) % TRIED_BUCKET_COUNT;
      var slot := Slot(bucket, cfg.positionHash(cfg.nKey, false, bucket, service) % BUCKET_SIZE);
      Cell(vvTried, slot);
      if vvTried[slot.bucket, slot.pos] != -1 {
        EvictKeeps(Abs(), slot, id);
        EvictEntry(slot, id);
      }
      TrySlot(slot, id);
    }

    /** `Good_`; `nRnd` is where its search for a bucket starts. */
    method MarkGood(a: Service, nTime: int, nRnd: nat)
      requires Valid()
      modifies this, vvNew, vvTried
      ensures Valid() && Abs() == Good(old(Abs()), a, nTime)
      ensures old(Indexed(Abs())) ==> Indexed(Abs())
    {
      ghost var s := Abs();
      GoodKeeps(s, a, nTime);
      var id := RecordGood(a, nTime);
      if id.None? {
        return;
      }
      StatsKeep(s, Abs(), id.value);
      var bucket := SearchBucket(id.value, nRnd);
      // SearchBucket never comes back without a bucket.
      assert bucket != -1;
      MoveToTried(id.value);
    }

    /** Lines 212-234 of `Good_`: the statistics, and the entry if it is to be moved. */
    method RecordGood(a: Service, nTime: int) returns (id: Option<int>)
      requires Shape()
      modifies this
      ensures var s, found := old(Abs()), old(Find(Abs(), a));
              var s0 := s.(nLastGood := nTime);
              if found.None? || s.mapInfo[found.value].addr.service != a then
                id.None? && Abs() == s0
              else
                var info := s.mapInfo[found.value];
                && id == (if info.fInTried then None else found)
                && Abs() == Update(s0, found.value, info.(nLastSuccess := nTime, nLastTry := nTime, nAttempts := 0))
    {
      nLastGood := nTime;
      var found := FindId(a);
      if found.None? {
        return None;
      }
      var info := mapInfo[found.value];
      if info.addr.service != a {
        return None;
      }
      mapInfo := mapInfo[found.value := info.(nLastSuccess := nTime, nLastTry := nTime, nAttempts := 0)];
      id := if info.fInTried then None else found;
    }

    /** Lines 240-249 of `Good_`: a bucket that holds the entry, which always exists. */
    method SearchBucket(id: int, nRnd: nat) returns (nUBucket: int)
      requires Valid() && id in mapInfo && !mapInfo[id].fInTried
      ensures 0 <= nUBucket < NEW_BUCKET_COUNT
      ensures InBucket(cfg, TableOf(vvNew), mapInfo[id].addr.service, id, nUBucket)
    {
      nUBucket := -1;
      var service := mapInfo[id].addr.service;
      var n := 0;
      while n < NEW_BUCKET_COUNT
        invariant 0 <= n <= NEW_BUCKET_COUNT
        invariant nUBucket == -1
        invariant forall k :: 0 <= k < n ==> !InBucket(cfg, TableOf(vvNew), service, id, Probe(k, nRnd))
      {
        var nB := Probe(n, nRnd);
        var nBpos := cfg.positionHash(cfg.nKey, true, nB, service) % BUCKET_SIZE;
        Cell(vvNew, Slot(nB, nBpos));
        if vvNew[nB, nBpos] == id {
          IdNotFree(Abs(), id);
          return nB;
        }
        n := n + 1;
      }
      NewEntryHasBucket(Abs(), id);
      ghost var b: nat :| b < NEW_BUCKET_COUNT && InBucket(cfg, TableOf(vvNew), service, id, b);
      AllVisited(b, nRnd);
      assert false;
    }

    /** The bucket visited in step `n` of the search. */
    static function Probe(n: nat, nRnd: nat): (bucket: nat)
      ensures bucket < NEW_BUCKET_COUNT
    {
      (n + nRnd) % NEW_BUCKET_COUNT
    }

    static lemma IdNotFree(s: State, id: int)
      requires Sound(s) && id in s.mapInfo
      ensures id >= 0
    {
    }

    /** Starting anywhere, the search comes by every bucket. */
    static lemma AllVisited(b: nat, nRnd: nat)
      requires b < NEW_BUCKET_COUNT
      ensures exists k: nat :: k < NEW_BUCKET_COUNT && Probe(k, nRnd) == b
    {
      var r := nRnd % NEW_BUCKET_COUNT;
      var k := if b >= r then b - r else b - r + NEW_BUCKET_COUNT;
      assert Probe(k, nRnd) == b;
    }

    method MarkAttempt(a: Service, fCountFailure: bool, nTime: int)
      requires Valid()
      modifies this
      ensures Valid() && Abs() == Attempt(old(Abs()), a, fCountFailure, nTime)
      ensures old(Indexed(Abs())) ==> Indexed(Abs())
    {
      RecordAttempt(a, fCountFailure, nTime);
      AttemptKeeps(old(Abs()), a, fCountFailure, nTime);
    }

    method RecordAttempt(a: Service, fCountFailure: bool, nTime: int)
      requires Shape()
      modifies this
      ensures Abs() == Attempt(old(Abs()), a, fCountFailure, nTime)
    {
      var found := FindId(a);
      if found.None? {
        return;
      }
      var info := mapInfo[found.value];
      if info.addr.service != a {
        return;
      }
      info := info.(nLastTry := nTime);
      if fCountFailure && info.nLastCountAttempt < nLastGood {
        info := info.(nLastCountAttempt := nTime, nAttempts := info.nAttempts + 1);
      }
      mapInfo := mapInfo[found.value := info];
    }

    method MarkConnected(a: Service, nTime: int)
      requires Valid()
      modifies this
      ensures Valid() && Abs() == Connected(old(Abs()), a, nTime)
      ensures old(Indexed(Abs())) ==> Indexed(Abs())
    {
      RecordConnected(a, nTime);
      ConnectedKeeps(old(Abs()), a, nTime);
    }

    method RecordConnected(a: Service, nTime: int)
      requires Shape()
      modifies this
      ensures Abs() == Connected(old(Abs()), a, nTime)
    {
      var found := FindId(a);
      if found.None? {
        return;
      }
      var info := mapInfo[found.value];
      if info.addr.service != a {
        return;
      }
      if nTime - info.addr.nTime > 20 * 60 {
        mapInfo := mapInfo[found.value := info.(addr := info.addr.(nTime := ToU32(nTime)))];
      }
    }

    method UpdateServices(a: Service, nServices: bv64)
      requires Valid()
      modifies this
      ensures Valid() && Abs() == SetServices(old(Abs()), a, nServices)
      ensures old(Indexed(Abs())) ==> Indexed(Abs())
    {
      RecordServices(a, nServices);
      SetServicesKeeps(old(Abs()), a, nServices);
    }

    method RecordServices(a: Service, nServices: bv64)
      requires Shape()
      modifies this
      ensures Abs() == SetServices(old(Abs()), a, nServices)
    {
      var found := FindId(a);
      if found.None? {
        return;
      }
      var info := mapInfo[found.value];
      if info.addr.service != a {
        return;
      }
      mapInfo := mapInfo[found.value := info.(addr := info.addr.(nServices := nServices))];
    }

    /** `Add_`; it answers whether the address was new, even when it found no slot for it. */
    method AddAddress(a: Address, source: NetAddr, nTimePenalty: int, now: int, unlucky: bool) returns (fNew: bool)
      requires Valid()
      modifies this, vvNew
      ensures Valid() && Abs() == Add(old(Abs()), a, source, nTimePenalty, now, unlucky)
      ensures old(Indexed(Abs())) ==> Indexed(Abs())
      ensures fNew <==> old(cfg.routable(a.service) && Find(Abs(), a.service).None?)
    {
      AddKeeps(Abs(), a, source, nTimePenalty, now, unlucky);
      if !cfg.routable(a.service) {
        return false;
      }
      var found := FindId(a.service);
      var penalty := if a.service.ip == source then 0 else nTimePenalty;
      if found.Some? {
        SeeAgain(found.value, a, source, penalty, now, unlucky);
        return false;
      }
      SeeFirst(a, source, penalty, now);
      return true;
    }

    /** Lines 305-308 and on: an address that is new. */
    method SeeFirst(a: Address, source: NetAddr, penalty: int, now: int)
      requires Valid() && Find(Abs(), a.service).None?
      modifies this, vvNew
      ensures Between(Created(old(Abs()), a, source, penalty), {old(nIdCount)}, 0)
      ensures Abs() == Offer(Created(old(Abs()), a, source, penalty), old(nIdCount), source, now)
    {
      CreatedKeeps(Abs(), a, source, penalty);
      var id := CreateCounted(a, source, penalty);
      OfferSlot(id, source, now);
    }

    method CreateCounted(a: Address, source: NetAddr, penalty: int) returns (id: int)
      requires Shape()
      modifies this
      ensures Abs() == Created(old(Abs()), a, source, penalty) && id == old(nIdCount)
    {
      id := CreateEntry(a, source);
      var info := mapInfo[id];
      mapInfo := mapInfo[id := info.(addr := info.addr.(nTime := ToU32(Max(0, info.addr.nTime - penalty))))];
      nNew := nNew + 1;
    }

    /** Lines 276-303 and on: an address that is known already. */
    method SeeAgain(id: int, a: Address, source: NetAddr, penalty: int, now: int, unlucky: bool)
      requires Valid() && id in mapInfo
      modifies this, vvNew
      ensures Abs() == AddKnown(old(Abs()), id, a, source, penalty, now, unlucky)
    {
      ghost var s := Abs();
      Refresh(id, a, penalty, now);
      StatsKeep(s, Abs(), id);
      var info := mapInfo[id];
      if a.nTime == 0 || (info.addr.nTime != 0 && a.nTime <= info.addr.nTime) {
        return;
      }
      if info.fInTried {
        return;
      }
      if info.nRefCount == NEW_BUCKETS_PER_ADDRESS {
        return;
      }
      if info.nRefCount > 0 && unlucky {
        return;
      }
      OfferSlot(id, source, now);
    }

    method Refresh(id: int, a: Address, penalty: int, now: int)
      requires Shape() && id in mapInfo
      modifies this`mapInfo
      ensures Abs() == Update(old(Abs()), id, Refreshed(old(mapInfo[id]), a, penalty, now))
    {
      var info := mapInfo[id];
      var nTime := RefreshTime(info.addr.nTime, a.nTime, penalty, now);
      info := info.(addr := info.addr.(nTime := nTime, nServices := info.addr.nServices | a.nServices));
      mapInfo := mapInfo[id := info];
    }

    static method RefreshTime(known: nat, seen: nat, penalty: int, now: int) returns (nTime: nat)
      ensures nTime == RefreshedTime(known, seen, penalty, now)
    {
      var fCurrentlyOnline := now - seen < 24 * 60 * 60;
      var nUpdateInterval := if fCurrentlyOnline then 60 * 60 else 24 * 60 * 60;
      nTime := known;
      if seen != 0 && (known == 0 || known < seen - nUpdateInterval - penalty) {
        nTime := ToU32(Max(0, seen - penalty));
      }
    }

    /** Lines 311-331: the slot this source gives the entry, if it can have it. */
    method OfferSlot(id: int, source: NetAddr, now: int)
      requires Shape() && id in mapInfo
      requires Between(Abs(), if mapInfo[id].nRefCount == 0 then {id} else {}, 0)
      modifies this, vvNew
      ensures Abs() == Offer(old(Abs()), id, source, now)
    {
      ghost var s := Abs();
      ghost var floating := if mapInfo[id].nRefCount == 0 then {id} else {};
      var service := mapInfo[id].addr.service;
      var bucket := cfg.newHash(cfg.nKey, service, source) % NEW_BUCKET_COUNT;
      var slot := Slot(bucket, cfg.positionHash(cfg.nKey, true, bucket, service) % BUCKET_SIZE);
      Cell(vvNew, slot);
      SlotHolder(s, slot, floating, 0);
      IdPositive(s, id, floating);
      if vvNew[slot.bucket, slot.pos] != id {
        var fInsert := vvNew[slot.bucket, slot.pos] == -1;
        if !fInsert {
          var infoExisting := mapInfo[vvNew[slot.bucket, slot.pos]];
          if IsTerrible(infoExisting, now) || (infoExisting.nRefCount > 1 && mapInfo[id].nRefCount == 0) {
            fInsert := true;
          }
        }
        if fInsert {
          TakeSlot(slot, id);
        } else if mapInfo[id].nRefCount == 0 {
          FloatingDeletable(s, id, floating, 0);
          DeleteEntry(id);
        }
      }
    }

    static lemma IdPositive(s: State, id: int, floating: set<int>)
      requires Between(s, floating, 0) && id in s.mapInfo
      ensures id >= 0
    {
    }

    /** Lines 323-325. */
    method TakeSlot(slot: Slot, id: int)
      requires Shape() && Clearable(Abs(), slot) && id in mapInfo && id >= 0
      requires slot.bucket < NEW_BUCKET_COUNT && slot.pos < BUCKET_SIZE
      requires slot in TableOf(vvNew) ==> mapInfo[TableOf(vvNew)[slot]].nRefCount > 0
      requires !(slot in TableOf(vvNew) && TableOf(vvNew)[slot] == id)
      modifies this, vvNew
      ensures id in ClearNew(old(Abs()), slot).mapInfo
      ensures Abs() == AddRef(ClearNew(old(Abs()), slot), slot, id)
    {
      ClearNewSpares(Abs(), slot);
      ClearSlot(slot);
      mapInfo := mapInfo[id := mapInfo[id].(nRefCount := mapInfo[id].nRefCount + 1)];
      SetSlot(vvNew, slot, id);
    }

    /**
      `GetAddr_`; `rnd` supplies its random numbers.  The answer holds distinct
      entries, none of them terrible: as many as there are, up to 23% of the table and
      up to 2500.
     */
    method GetAddresses(now: int, rnd: nat -> nat) returns (vAddr: seq<Address>, ghost ids: seq<int>)
      requires Valid()
      modifies this
      ensures Valid() && Reordered(old(Abs()), Abs())
      ensures old(Indexed(Abs())) ==> Indexed(Abs())
      ensures |vAddr| == |ids|
      ensures |vAddr| <= 2500 && 100 * |vAddr| <= 23 * |vRandom|
      ensures |vAddr| == |Fit(mapInfo, now)| || |vAddr| == 2500 || 100 * (|vAddr| + 1) > 23 * |vRandom|
      ensures forall i :: 0 <= i < |ids| ==>
                ids[i] in mapInfo && !IsTerrible(mapInfo[ids[i]], now) && vAddr[i] == mapInfo[ids[i]].addr
      ensures forall i, j :: 0 <= i < j < |ids| ==> ids[i] != ids[j]
    {
      ghost var s := Abs();
      vAddr, ids := [], [];
      var nNodes := GETADDR_MAX_PCT * |vRandom| / 100;
      if nNodes > GETADDR_MAX {
        nNodes := GETADDR_MAX;
      }
      var n := 0;
      while n < |vRandom| && |vAddr| < nNodes
        invariant Shape() && Reordered(s, Abs()) && |vRandom| == |s.vRandom|
        invariant n <= |vRandom| && |vAddr| <= nNodes && |vAddr| == |ids|
        invariant Picked(mapInfo, vAddr, ids, n, now) && NoneMissed(mapInfo, vRandom, ids, n, now)
      {
        ghost var m, v := mapInfo, vRandom;
        var id := PickNext(s, n, rnd(n) % (|vRandom| - n) + n);
        PickedStays(m, mapInfo, vAddr, ids, n, now);
        NoneMissedStays(m, v, mapInfo, vRandom, ids, n, now);
        vAddr, ids := Collect(vAddr, ids, n, now, id);
        n := n + 1;
      }
      ReorderedKeeps(s, Abs());
      if n == |vRandom| {
        AllPicked(mapInfo, vRandom, vAddr, ids, now);
      }
    }

    /** Lines 497-499 of `GetAddr_`: an entry that is not terrible goes to the list. */
    method Collect(vAddr: seq<Address>, ghost ids: seq<int>, ghost n: nat, now: int, id: int)
      returns (all: seq<Address>, ghost ids': seq<int>)
      requires id in mapInfo && mapInfo[id].nRandomPos == n && Picked(mapInfo, vAddr, ids, n, now)
      requires n < |vRandom| && vRandom[n] == id && NoneMissed(mapInfo, vRandom, ids, n, now)
      ensures Picked(mapInfo, all, ids', n + 1, now) && |all| <= |vAddr| + 1
      ensures NoneMissed(mapInfo, vRandom, ids', n + 1, now)
    {
      all, ids' := vAddr, ids;
      if !IsTerrible(mapInfo[id], now) {
        PickedGrows(mapInfo, vAddr, ids, n, now, id);
        all, ids' := vAddr + [mapInfo[id].addr], ids + [id];
      }
    }

    /** The entries that are not terrible. */
    static ghost function Fit(m: map<int, Info>, now: int): set<int> {
      set id | id in m && !IsTerrible(m[id], now)
    }

    /** Every such entry in the first `n` places has been picked. */
    static ghost predicate NoneMissed(m: map<int, Info>, v: seq<int>, ids: seq<int>, n: nat, now: int) {
      n <= |v| && forall k :: 0 <= k < n ==> v[k] in m && (!IsTerrible(m[v[k]], now) ==> v[k] in ids)
    }

    static lemma NoneMissedStays(m: map<int, Info>, v: seq<int>, m': map<int, Info>, v': seq<int>, ids: seq<int>,
                                 n: nat, now: int)
      requires NoneMissed(m, v, ids, n, now) && |v'| == |v| && v'[..n] == v[..n]
      requires forall k :: 0 <= k < n ==> v[k] in m && m[v[k]].nRandomPos == k
      requires forall id :: id in m && m[id].nRandomPos < n ==> id in m' && m'[id] == m[id]
      ensures NoneMissed(m', v', ids, n, now)
    {
      forall k | 0 <= k < n ensures v'[k] in m' && (!IsTerrible(m'[v'[k]], now) ==> v'[k] in ids) {
        assert v'[k] == v'[..n][k] == v[..n][k] == v[k];
      }
    }

    static lemma AllPicked(m: map<int, Info>, v: seq<int>, vAddr: seq<Address>, ids: seq<int>, now: int)
      requires RandomOk(m, v) && Picked(m, vAddr, ids, |v|, now) && NoneMissed(m, v, ids, |v|, now)
      ensures |ids| == |Fit(m, now)|
    {
      forall id ensures id in Fit(m, now) <==> id in ids {
        if id in Fit(m, now) {
          assert v[m[id].nRandomPos] == id;
        }
      }
      DistinctIds(ids, Fit(m, now));
    }

    static lemma {:induction false} DistinctIds(ids: seq<int>, all: set<int>)
      requires (forall id :: id in all <==> id in ids) && forall i, j :: 0 <= i < j < |ids| ==> ids[i] != ids[j]
      ensures |ids| == |all|
      decreases |ids|
    {
      if ids == [] {
        assert forall id <- all :: id in ids;
        assert all == {};
      } else {
        var n := |ids| - 1;
        forall id ensures id in all - {ids[n]} <==> id in ids[..n] {
          if id in ids {
            var k :| 0 <= k < |ids| && ids[k] == id;
            assert k < n ==> ids[..n][k] == id;
          }
        }
        DistinctIds(ids[..n], all - {ids[n]});
      }
    }

    /** The entries picked so far: good ones, in the first `n` places, all different. */
    static ghost predicate Picked(m: map<int, Info>, vAddr: seq<Address>, ids: seq<int>, n: nat, now: int) {
      && |vAddr| == |ids|
      && (forall i :: 0 <= i < |ids| ==>
            && ids[i] in m && !IsTerrible(m[ids[i]], now) && vAddr[i] == m[ids[i]].addr && m[ids[i]].nRandomPos < n)
      && (forall i, j :: 0 <= i < j < |ids| ==> ids[i] != ids[j])
    }

    static lemma PickedStays(m: map<int, Info>, m': map<int, Info>, vAddr: seq<Address>, ids: seq<int>, n: nat,
                             now: int)
      requires Picked(m, vAddr, ids, n, now)
      requires forall id :: id in m && m[id].nRandomPos < n ==> id in m' && m'[id] == m[id]
      ensures Picked(m', vAddr, ids, n, now) && Picked(m', vAddr, ids, n + 1, now)
    {
    }

    static lemma PickedGrows(m: map<int, Info>, vAddr: seq<Address>, ids: seq<int>, n: nat, now: int, id: int)
      requires Picked(m, vAddr, ids, n, now)
      requires id in m && m[id].nRandomPos == n && !IsTerrible(m[id], now)
      ensures Picked(m, vAddr + [m[id].addr], ids + [id], n + 1, now)
    {
    }

    /** Lines 493-495: swap a random later place into place `n`. */
    method PickNext(ghost s: State, n: nat, nRndPos: nat) returns (id: int)
      requires Shape() && Reordered(s, Abs())
      requires n <= nRndPos < |vRandom|
      modifies this
      ensures Reordered(s, Abs())
      ensures |vRandom| == old(|vRandom|) && vRandom[..n] == old(vRandom)[..n] && vRandom[n] == id
      ensures id in mapInfo && mapInfo[id].nRandomPos == n
      ensures forall x :: x in old(mapInfo) && old(mapInfo)[x].nRandomPos < n ==>
                x in mapInfo && mapInfo[x] == old(mapInfo)[x]
    {
      SwapReorders(s, Abs(), n, nRndPos);
      Swap(n, nRndPos);
      assert vRandom[n] in mapInfo;
      id := vRandom[n];
    }
  }
}
