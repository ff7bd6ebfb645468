/**
  The on-disk form of the address manager (`Serialize` and `Unserialize` in
  src/addrman.h).  It leaves out the tried table, the index by address and the order
  of vRandom, which are rebuilt on reading.
 */
module AddrManDisk {
  import opened AddrMan
  import opened Basics

  /** The fields of an entry that are stored. */
  datatype Record = Record(addr: Address, source: NetAddr, nLastSuccess: int, nAttempts: int)

  /** What is on disk, in the order in which it is written. */
  datatype Image = Image(
    nVersion: nat,
    nKeySize: nat,
    nKey: Key,
    nNew: int,
    nTried: int,
    nUBuckets: int,
    news: seq<Record>,
    trieds: seq<Record>,
    buckets: seq<seq<int>>)

  function RecordOf(info: Info): Record {
    Record(info.addr, info.source, info.nLastSuccess, info.nAttempts)
  }

  /** `n ^ (1 << 30)`. */
  function FlipBit30(n: int): int {
    if (n / 0x4000_0000) % 2 == 0 then n + 0x4000_0000 else n - 0x4000_0000
  }

  lemma FlipTwice(n: int)
    ensures FlipBit30(FlipBit30(n)) == n
  {
  }

  // ----- Entries in ascending order of id -----

  predicate Wanted(info: Info, tried: bool) {
    if tried then info.fInTried else info.nRefCount != 0
  }

  /** The new or the tried ids below `n`. */
  ghost function Ids(m: map<int, Info>, n: nat, tried: bool): (r: seq<int>)
    ensures forall k :: 0 <= k < |r| ==> r[k] in m && 0 <= r[k] < n && Wanted(m[r[k]], tried)
  {
    if n == 0 then []
    else Ids(m, n - 1, tried) + if n - 1 in m && Wanted(m[n - 1], tried) then [n - 1] else []
  }

  lemma {:induction false} IdsPrefix(m: map<int, Info>, k: nat, n: nat, tried: bool)
    requires k <= n
    ensures Ids(m, k, tried) <= Ids(m, n, tried)
    decreases n
  {
    if k < n {
      IdsPrefix(m, k, n - 1, tried);
    }
  }

  /** The number of an entry in the list is the number of those before it. */
  lemma IdsAt(m: map<int, Info>, id: nat, n: nat, tried: bool)
    requires id < n && id in m && Wanted(m[id], tried)
    ensures |Ids(m, id, tried)| < |Ids(m, n, tried)| && Ids(m, n, tried)[|Ids(m, id, tried)|] == id
  {
    IdsPrefix(m, id + 1, n, tried);
  }

  lemma {:induction false} IdsAscend(m: map<int, Info>, n: nat, tried: bool, i: nat, j: nat)
    requires i < j < |Ids(m, n, tried)|
    ensures Ids(m, n, tried)[i] < Ids(m, n, tried)[j]
    decreases n
  {
    if j < |Ids(m, n - 1, tried)| {
      IdsAscend(m, n - 1, tried, i, j);
    }
  }

  ghost function IdSet(m: map<int, Info>, n: int, tried: bool): set<int> {
    set id | id in m && id < n && Wanted(m[id], tried)
  }

  lemma {:induction false} IdsCount(m: map<int, Info>, n: nat, tried: bool)
    requires forall id <- m :: id >= 0
    ensures |Ids(m, n, tried)| == |IdSet(m, n, tried)|
    decreases n
  {
    if n == 0 {
      assert IdSet(m, 0, tried) == {};
    } else {
      IdsCount(m, n - 1, tried);
      if n - 1 in m && Wanted(m[n - 1], tried) {
        assert IdSet(m, n, tried) == IdSet(m, n - 1, tried) + {n - 1};
      } else {
        assert IdSet(m, n, tried) == IdSet(m, n - 1, tried);
      }
    }
  }

  /** The counters of a consistent manager are the lengths of the two lists. */
  lemma CountersAreLengths(s: State)
    requires Sound(s)
    ensures |Ids(s.mapInfo, s.nIdCount, false)| == s.nNew && |Ids(s.mapInfo, s.nIdCount, true)| == s.nTried
  {
    IdsCount(s.mapInfo, s.nIdCount, false);
    IdsCount(s.mapInfo, s.nIdCount, true);
    AllIds(s.mapInfo, s.vvNew, s.nIdCount);
  }

  lemma AllIds(m: map<int, Info>, t: Table, n: int)
    requires IdsOk(m, n) && RefsOk(m, t, {})
    ensures IdSet(m, n, false) == NewIds(m) && IdSet(m, n, true) == TriedIds(m)
  {
    forall id
      ensures id in IdSet(m, n, false) <==> id in NewIds(m)
      ensures id in IdSet(m, n, true) <==> id in TriedIds(m)
    {
      assert id in m ==> id < n && (Wanted(m[id], false) <==> !m[id].fInTried);
    }
  }

  // ----- The tables bound the counters -----

  lemma {:induction false} RowBound(keys: set<Slot>, bucket: nat, size: nat)
    requires forall k <- keys :: k.bucket == bucket && k.pos < size
    ensures |keys| <= size
    decreases size
  {
    if size == 0 {
      assert keys == {};
    } else {
      RowBound(keys - {Slot(bucket, size - 1)}, bucket, size - 1);
    }
  }

  lemma {:induction false} SlotBound(keys: set<Slot>, buckets: nat, size: nat)
    requires forall k <- keys :: k.bucket < buckets && k.pos < size
    ensures |keys| <= buckets * size
    decreases buckets
  {
    if buckets == 0 {
      assert keys == {};
    } else {
      var row := set k | k in keys && k.bucket == buckets - 1;
      RowBound(row, buckets - 1, size);
      SlotBound(keys - row, buckets - 1, size);
      assert keys == row + (keys - row);
      assert buckets * size == (buckets - 1) * size + size;
    }
  }

  lemma OtherRefs(t: Table, slot: Slot, id: int)
    requires slot in t && t[slot] != id
    ensures Refs(t - {slot}, id) == Refs(t, id)
  {
  }

  /** Each of the ids has a slot. */
  ghost predicate AllPlaced(t: Table, ids: seq<int>) {
    forall k :: 0 <= k < |ids| ==> Refs(t, ids[k]) != {}
  }

  ghost predicate Different(ids: seq<int>) {
    forall i, j :: 0 <= i < j < |ids| ==> ids[i] != ids[j]
  }

  lemma PlacedWithout(t: Table, slot: Slot, ids: seq<int>)
    requires AllPlaced(t, ids) && slot in t && t[slot] !in ids
    ensures AllPlaced(t - {slot}, ids) && (t - {slot}).Keys == t.Keys - {slot}
  {
    forall k | 0 <= k < |ids| ensures Refs(t - {slot}, ids[k]) != {} {
      OtherRefs(t, slot, ids[k]);
    }
  }

  /** Different entries that each have a slot are no more than the slots. */
  lemma {:induction false} EachHasSlot(ids: seq<int>, t: Table)
    requires AllPlaced(t, ids) && Different(ids)
    ensures |ids| <= |t.Keys|
    decreases |ids|
  {
    if ids != [] {
      var n := |ids| - 1;
      assert Refs(t, ids[n]) != {};
      var slot :| slot in Refs(t, ids[n]);
      PlacedWithout(t, slot, ids[..n]);
      EachHasSlot(ids[..n], t - {slot});
    }
  }

  lemma IdsDiffer(m: map<int, Info>, n: nat, tried: bool)
    ensures Different(Ids(m, n, tried))
  {
    var ids := Ids(m, n, tried);
    forall i, j | 0 <= i < j < |ids| ensures ids[i] != ids[j] {
      IdsAscend(m, n, tried, i, j);
    }
  }

  lemma CountersFit(s: State)
    requires Sound(s)
    ensures s.nNew <= NEW_BUCKET_COUNT * BUCKET_SIZE && s.nTried <= TRIED_BUCKET_COUNT * BUCKET_SIZE
  {
    CountersAreLengths(s);
    NewFit(s);
    TriedFit(s);
  }

  lemma NewFit(s: State)
    requires IdsOk(s.mapInfo, s.nIdCount) && RefsOk(s.mapInfo, s.vvNew, {}) && NewTableOk(s.cfg, s.mapInfo, s.vvNew)
    ensures |Ids(s.mapInfo, s.nIdCount, false)| <= NEW_BUCKET_COUNT * BUCKET_SIZE
  {
    var ids := Ids(s.mapInfo, s.nIdCount, false);
    forall k | 0 <= k < |ids| ensures Refs(s.vvNew, ids[k]) != {} {
      assert s.mapInfo[ids[k]].nRefCount == |Refs(s.vvNew, ids[k])|;
    }
    IdsDiffer(s.mapInfo, s.nIdCount, false);
    EachHasSlot(ids, s.vvNew);
    SlotBound(s.vvNew.Keys, NEW_BUCKET_COUNT, BUCKET_SIZE);
  }

  lemma TriedFit(s: State)
    requires IdsOk(s.mapInfo, s.nIdCount) && TriedTableOk(s.cfg, s.mapInfo, s.vvTried)
    ensures |Ids(s.mapInfo, s.nIdCount, true)| <= TRIED_BUCKET_COUNT * BUCKET_SIZE
  {
    var ids := Ids(s.mapInfo, s.nIdCount, true);
    forall k | 0 <= k < |ids| ensures Refs(s.vvTried, ids[k]) != {} {
      assert TriedSlot(s.cfg, s.mapInfo[ids[k]].addr.service) in Refs(s.vvTried, ids[k]);
    }
    IdsDiffer(s.mapInfo, s.nIdCount, true);
    EachHasSlot(ids, s.vvTried);
    SlotBound(s.vvTried.Keys, TRIED_BUCKET_COUNT, BUCKET_SIZE);
  }

  // ----- Writing -----

  /** The indexes written for a bucket: the numbers of the entries at its first `n` positions. */
  ghost function BucketList(s: State, bucket: nat, n: nat): (r: seq<int>)
    requires forall slot <- s.vvNew :: s.vvNew[slot] >= 0
  {
    if n == 0 then []
    else
      var slot := Slot(bucket, n - 1);
      BucketList(s, bucket, n - 1) + (if slot in s.vvNew then [|Ids(s.mapInfo, s.vvNew[slot], false)|] else [])
  }

  /** The image is that of the manager. */
  ghost predicate ImageOf(s: State, img: Image) {
    && (forall slot <- s.vvNew :: s.vvNew[slot] >= 0) && s.nIdCount >= 0
    && img.nVersion == 1 && img.nKeySize == 32 && img.nKey == s.cfg.nKey
    && img.nNew == s.nNew && img.nTried == s.nTried && img.nUBuckets == FlipBit30(NEW_BUCKET_COUNT)
    && Lists(s, false, img.news) && Lists(s, true, img.trieds)
    && |img.buckets| == NEW_BUCKET_COUNT
    && (forall b :: 0 <= b < NEW_BUCKET_COUNT ==> img.buckets[b] == BucketList(s, b, BUCKET_SIZE))
  }

  /** The records of the new or of the tried entries, by ascending id. */
  ghost predicate Lists(s: State, tried: bool, records: seq<Record>)
    requires s.nIdCount >= 0
  {
    ListsTo(s.mapInfo, s.nIdCount, tried, records)
  }

  ghost predicate ListsTo(m: map<int, Info>, n: nat, tried: bool, records: seq<Record>) {
    var ids := Ids(m, n, tried);
    |records| == |ids| && forall k :: 0 <= k < |ids| ==> records[k] == RecordOf(m[ids[k]])
  }

  lemma ListsNext(m: map<int, Info>, n: nat, tried: bool, records: seq<Record>)
    requires ListsTo(m, n, tried, records)
    ensures if n in m && Wanted(m[n], tried) then ListsTo(m, n + 1, tried, records + [RecordOf(m[n])])
            else ListsTo(m, n + 1, tried, records)
  {
  }

  /** Each id below `n` is numbered by the new entries before it. */
  ghost predicate Numbers(m: map<int, Info>, n: int, unkIds: map<int, int>)
    requires forall id <- m :: id >= 0
  {
    forall id <- m :: id < n ==> id in unkIds && unkIds[id] == |Ids(m, id, false)|
  }

  /** `Serialize`. */
  method Serialize(s: State) returns (img: Image)
    requires Sound(s)
    ensures ImageOf(s, img) && img.nUBuckets == 0x4000_0400
  {
    CountersAreLengths(s);
    var news, unkIds := WriteNew(s);
    var trieds := WriteTried(s);
    var buckets := [];
    for bucket := 0 to NEW_BUCKET_COUNT
      invariant |buckets| == bucket
      invariant forall b :: 0 <= b < bucket ==> buckets[b] == BucketList(s, b, BUCKET_SIZE)
    {
      var list := WriteBucket(s, unkIds, bucket);
      buckets := buckets + [list];
    }
    img := Image(1, 32, s.cfg.nKey, s.nNew, s.nTried, FlipBit30(NEW_BUCKET_COUNT), news, trieds, buckets);
  }

  /** The new entries, and the number given to each id on the way. */
  method WriteNew(s: State) returns (records: seq<Record>, unkIds: map<int, int>)
    requires IdsOk(s.mapInfo, s.nIdCount) && |Ids(s.mapInfo, s.nIdCount, false)| == s.nNew
    ensures Lists(s, false, records) && Numbers(s.mapInfo, s.nIdCount, unkIds)
  {
    records, unkIds := [], map[];
    for id := 0 to s.nIdCount
      invariant ListsTo(s.mapInfo, id, false, records) && Numbers(s.mapInfo, id, unkIds)
    {
      ListsNext(s.mapInfo, id, false, records);
      if id in s.mapInfo {
        unkIds := unkIds[id := |records|];
        if s.mapInfo[id].nRefCount != 0 {
          IdsAt(s.mapInfo, id, s.nIdCount, false);
          assert |records| != s.nNew;
          records := records + [RecordOf(s.mapInfo[id])];
        }
      }
    }
  }

  method WriteTried(s: State) returns (records: seq<Record>)
    requires IdsOk(s.mapInfo, s.nIdCount) && |Ids(s.mapInfo, s.nIdCount, true)| == s.nTried
    ensures Lists(s, true, records)
  {
    records := [];
    for id := 0 to s.nIdCount
      invariant ListsTo(s.mapInfo, id, true, records)
    {
      ListsNext(s.mapInfo, id, true, records);
      if id in s.mapInfo && s.mapInfo[id].fInTried {
        IdsAt(s.mapInfo, id, s.nIdCount, true);
        assert |records| != s.nTried;
        records := records + [RecordOf(s.mapInfo[id])];
      }
    }
  }

  method WriteBucket(s: State, unkIds: map<int, int>, bucket: nat) returns (list: seq<int>)
    requires IdsOk(s.mapInfo, s.nIdCount) && NewTableOk(s.cfg, s.mapInfo, s.vvNew)
             && Numbers(s.mapInfo, s.nIdCount, unkIds)
    ensures list == BucketList(s, bucket, BUCKET_SIZE)
  {
    list := [];
    for i := 0 to BUCKET_SIZE
      invariant list == BucketList(s, bucket, i)
    {
      if Slot(bucket, i) in s.vvNew {
        var id := s.vvNew[Slot(bucket, i)];
        assert id in s.mapInfo;
        assert id in unkIds;
        list := list + [unkIds[id]];
      }
    }
  }

  // ----- Reading -----

  /** An entry as read, before its place in the tables is known. */
  function Entry(r: Record, fInTried: bool, pos: nat): Info {
    Info(r.addr, r.source, r.nLastSuccess, r.nAttempts, 0, fInTried, pos, 0, 0)
  }

  /** The position in vRandom and the index by address are set as an entry is read; the index is by the full service. */
  function AddEntry(s: State, id: int, info: Info): State {
    s.(
    mapInfo := s.mapInfo[id := info],
    mapAddr := s.mapAddr[info.addr.service := id],
    vRandom := s.vRandom + [id])
  }

  /** A reference in the new table. */
  function AddPlace(s: State, id: int, slot: Slot): State
    requires id in s.mapInfo
  {
    s.(
    vvNew := s.vvNew[slot := id],
    mapInfo := s.mapInfo[id := s.mapInfo[id].(nRefCount := s.mapInfo[id].nRefCount + 1)])
  }

  /** A record of the new table; if the buckets on disk cannot be used it gets one place by its source. */
  function NewStep(s: State, r: Record, n: nat, usable: bool): State {
    var info := Entry(r, false, |s.vRandom|);
    var t := AddEntry(s, n, info);
    var slot := NewSlot(s.cfg, info.addr.service, info.source);
    if !usable && slot !in t.vvNew then AddPlace(t, n, slot) else t
  }

  ghost function LoadNew(s: State, news: seq<Record>, usable: bool): State {
    if news == [] then s
    else
      var n := |news| - 1;
      NewStep(LoadNew(s, news[..n], usable), news[n], n, usable)
  }

  /** Write an id into a table; an id of -1, which a negative nNew leads to, leaves the slot free. */
  function Occupy(t: Table, slot: Slot, id: int): Table {
    if id == -1 then t else t[slot := id]
  }

  /** A record of the tried table goes to its computed slot, or is lost if that is taken. */
  function TriedStep(s: State, r: Record): State {
    var slot := TriedSlot(s.cfg, r.addr.service);
    if slot in s.vvTried then s.(nTried := s.nTried - 1)
    else
      AddEntry(s, s.nIdCount, Entry(r, true, |s.vRandom|)).(
      vvTried := Occupy(s.vvTried, slot, s.nIdCount),
      nIdCount := s.nIdCount + 1)
  }

  ghost function LoadTried(s: State, trieds: seq<Record>): State {
    if trieds == [] then s
    else TriedStep(LoadTried(s, trieds[..|trieds| - 1]), trieds[|trieds| - 1])
  }

  /** One index of a bucket. */
  function LoadPlace(s: State, bucket: nat, index: int, usable: bool): State {
    if 0 <= index < s.nNew && index in s.mapInfo then
      var slot := Slot(bucket, BucketPosition(s.cfg, s.mapInfo[index].addr.service, true, bucket));
      if usable && slot !in s.vvNew && s.mapInfo[index].nRefCount < NEW_BUCKETS_PER_ADDRESS then
        AddPlace(s, index, slot)
      else s
    else s
  }

  ghost function LoadBucket(s: State, bucket: nat, list: seq<int>, usable: bool): State {
    if list == [] then s
    else LoadPlace(LoadBucket(s, bucket, list[..|list| - 1], usable), bucket, list[|list| - 1], usable)
  }

  ghost function LoadBuckets(s: State, buckets: seq<seq<int>>, usable: bool): State {
    if buckets == [] then s
    else
      var n := |buckets| - 1;
      LoadBucket(LoadBuckets(s, buckets[..n], usable), n, buckets[n], usable)
  }

  /** vRandom and the ids are in order: what every stage of reading keeps, whatever the image. */
  ghost predicate Orderly(s: State) {
    RandomOk(s.mapInfo, s.vRandom) && forall id <- s.mapInfo :: id < s.nIdCount
  }

  predicate Orphan(s: State, id: int) {
    id in s.mapInfo && !s.mapInfo[id].fInTried && s.mapInfo[id].nRefCount == 0
  }

  /** Exactly the orphans below `n` are gone, and nothing but the order of vRandom has changed for the others. */
  ghost predicate Pruned(s: State, t: State, n: nat) {
    && RandomOk(t.mapInfo, t.vRandom)
    && t == s.(mapInfo := t.mapInfo, mapAddr := t.mapAddr, vRandom := t.vRandom, nNew := t.nNew)
    && (forall id :: id in t.mapInfo <==> id in s.mapInfo && !(0 <= id < n && Orphan(s, id)))
    && (forall id <- t.mapInfo :: t.mapInfo[id] == s.mapInfo[id].(nRandomPos := t.mapInfo[id].nRandomPos))
    && t.nNew - |t.vRandom| == s.nNew - |s.vRandom|
    && (NoOrphans(s, n) ==> t == s)
  }

  ghost predicate NoOrphans(s: State, n: nat) {
    forall id :: 0 <= id < n ==> !Orphan(s, id)
  }

  function BucketCount(img: Image): int {
    if img.nVersion != 0 then FlipBit30(img.nUBuckets) else img.nUBuckets
  }

  predicate Usable(img: Image) {
    img.nVersion == 1 && BucketCount(img) == NEW_BUCKET_COUNT
  }

  /** The stream holds as much as its counters say; a shorter one cannot be read at all. */
  ghost predicate Complete(img: Image) {
    |img.news| == Max(img.nNew, 0) && |img.trieds| == Max(img.nTried, 0) && |img.buckets| == Max(BucketCount(img), 0)
  }

  predicate Refused(img: Image) {
    img.nKeySize != 32 || img.nNew > NEW_BUCKET_COUNT * BUCKET_SIZE || img.nTried > TRIED_BUCKET_COUNT * BUCKET_SIZE
  }

  function Header(c: Config, img: Image): State {
    Fresh(c.(nKey := img.nKey)).(nNew := img.nNew, nTried := img.nTried)
  }

  /** The state before pruning. */
  ghost function Loaded(c: Config, img: Image): State {
    var s := LoadNew(Header(c, img), img.news, Usable(img)).(nIdCount := img.nNew);
    LoadBuckets(LoadTried(s, img.trieds), img.buckets, Usable(img))
  }

  lemma {:induction false} LoadNewOrderly(s: State, news: seq<Record>, usable: bool)
    requires s.mapInfo == map[] && s.vRandom == []
    ensures var t := LoadNew(s, news, usable);
            RandomOk(t.mapInfo, t.vRandom) && (forall id <- t.mapInfo :: 0 <= id < |news|) && t.nIdCount == s.nIdCount
              && t.nNew == s.nNew
    decreases |news|
  {
    if news != [] {
      var n := |news| - 1;
      LoadNewOrderly(s, news[..n], usable);
      var before := LoadNew(s, news[..n], usable);
      NewEntryRandom(before.mapInfo, before.vRandom, n, Entry(news[n], false, |before.vRandom|));
    }
  }

  lemma {:induction false} LoadTriedOrderly(s: State, trieds: seq<Record>)
    requires Orderly(s)
    ensures Orderly(LoadTried(s, trieds))
    decreases |trieds|
  {
    if trieds != [] {
      var n := |trieds| - 1;
      LoadTriedOrderly(s, trieds[..n]);
      var before := LoadTried(s, trieds[..n]);
      NewEntryRandom(before.mapInfo, before.vRandom, before.nIdCount, Entry(trieds[n], true, |before.vRandom|));
    }
  }

  lemma {:induction false} LoadBucketOrderly(s: State, bucket: nat, list: seq<int>, usable: bool)
    requires Orderly(s)
    ensures Orderly(LoadBucket(s, bucket, list, usable))
    decreases |list|
  {
    if list != [] {
      LoadBucketOrderly(s, bucket, list[..|list| - 1], usable);
    }
  }

  lemma {:induction false} LoadBucketsOrderly(s: State, buckets: seq<seq<int>>, usable: bool)
    requires Orderly(s)
    ensures Orderly(LoadBuckets(s, buckets, usable))
    decreases |buckets|
  {
    if buckets != [] {
      var n := |buckets| - 1;
      LoadBucketsOrderly(s, buckets[..n], usable);
      LoadBucketOrderly(LoadBuckets(s, buckets[..n], usable), n, buckets[n], usable);
    }
  }

  /** Whatever the image, every index into vRandom that pruning uses is in range. */
  lemma LoadedOrderly(c: Config, img: Image)
    requires Complete(img)
    ensures Orderly(Loaded(c, img))
  {
    var s := LoadNew(Header(c, img), img.news, Usable(img));
    LoadNewOrderly(Header(c, img), img.news, Usable(img));
    var s1 := s.(nIdCount := img.nNew);
    LoadTriedOrderly(s1, img.trieds);
    LoadBucketsOrderly(LoadTried(s1, img.trieds), img.buckets, Usable(img));
  }

  /** `Unserialize` into a newly constructed manager; a refused image leaves none. */
  method Unserialize(c: Config, img: Image) returns (r: Option<State>)
    requires Complete(img)
    ensures r.None? <==> Refused(img)
    ensures r.Some? ==> Pruned(Loaded(c, img), r.value, Max(Loaded(c, img).nIdCount, 0))
  {
    if Refused(img) {
      return None;
    }
    LoadedOrderly(c, img);
    var s := ReadNews(Header(c, img), img.news, Usable(img));
    s := s.(nIdCount := img.nNew);
    s := ReadTrieds(s, img.trieds);
    s := ReadBuckets(s, img.buckets, Usable(img));
    s := PruneOrphans(s);
    r := Some(s);
  }

  method ReadNews(s: State, news: seq<Record>, usable: bool) returns (t: State)
    ensures t == LoadNew(s, news, usable)
  {
    t := s;
    for n := 0 to |news|
      invariant t == LoadNew(s, news[..n], usable)
    {
      t := NewStep(t, news[n], n, usable);
      assert news[..n + 1][..n] == news[..n];
    }
    assert news[..|news|] == news;
  }

  method ReadTrieds(s: State, trieds: seq<Record>) returns (t: State)
    ensures t == LoadTried(s, trieds)
  {
    t := s;
    for n := 0 to |trieds|
      invariant t == LoadTried(s, trieds[..n])
    {
      t := TriedStep(t, trieds[n]);
      assert trieds[..n + 1][..n] == trieds[..n];
    }
    assert trieds[..|trieds|] == trieds;
  }

  method ReadBuckets(s: State, buckets: seq<seq<int>>, usable: bool) returns (t: State)
    ensures t == LoadBuckets(s, buckets, usable)
  {
    t := s;
    for bucket := 0 to |buckets|
      invariant t == LoadBuckets(s, buckets[..bucket], usable)
    {
      t := ReadBucket(t, bucket, buckets[bucket], usable);
      assert buckets[..bucket + 1][..bucket] == buckets[..bucket];
    }
    assert buckets[..|buckets|] == buckets;
  }

  method ReadBucket(s: State, bucket: nat, list: seq<int>, usable: bool) returns (t: State)
    ensures t == LoadBucket(s, bucket, list, usable)
  {
    t := s;
    assert list[..0] == [];
    for n := 0 to |list|
      invariant t == LoadBucket(s, bucket, list[..n], usable)
    {
      t := LoadPlace(t, bucket, list[n], usable);
      assert list[..n + 1][..n] == list[..n];
    }
    assert list[..|list|] == list;
  }

  /** The last loop: delete the new entries that ended up without a place. */
  method PruneOrphans(s: State) returns (t: State)
    requires RandomOk(s.mapInfo, s.vRandom)
    ensures Pruned(s, t, Max(s.nIdCount, 0))
  {
    t := s;
    var id := 0;
    while id < s.nIdCount
      invariant 0 <= id <= Max(s.nIdCount, 0) && Pruned(s, t, id)
    {
      ghost var before := t;
      if Orphan(t, id) {
        t := Remove(t, id);
      }
      PrunedNext(s, before, t, id);
      id := id + 1;
    }
  }

  /** One entry is gone and the others are as before. */
  ghost predicate Removed(s: State, t: State, id: int) {
    && RandomOk(t.mapInfo, t.vRandom)
    && t == s.(mapInfo := t.mapInfo, mapAddr := t.mapAddr, vRandom := t.vRandom, nNew := s.nNew - 1)
    && |t.vRandom| == |s.vRandom| - 1 && id in s.mapInfo
    && (forall x :: x in t.mapInfo <==> x in s.mapInfo && x != id)
    && (forall x <- t.mapInfo :: t.mapInfo[x] == s.mapInfo[x].(nRandomPos := t.mapInfo[x].nRandomPos))
  }

  method Remove(s: State, id: int) returns (t: State)
    requires Deletable(s, id)
    ensures Removed(s, t, id)
  {
    ghost var pos, last := s.mapInfo[id].nRandomPos, |s.vRandom| - 1;
    var swapped := SwapRandom(s, s.mapInfo[id].nRandomPos, |s.vRandom| - 1);
    SwapInfos(s, pos, last);
    SwapRandomPermutes(s, pos, last);
    t := DropLast(swapped, id);
    PopRandom(swapped, t, id);
  }

  lemma PrunedNext(s: State, before: State, t: State, id: nat)
    requires Pruned(s, before, id)
    requires if Orphan(before, id) then Removed(before, t, id) else t == before
    ensures Pruned(s, t, id + 1)
  {
    assert id in before.mapInfo <==> id in s.mapInfo;
    assert Orphan(before, id) <==> Orphan(s, id);
  }

  // ----- Reading what was written -----

  /** The entries read so far, numbered in order; those from `split` on are tried. */
  ghost predicate Mirrors(t: State, recs: seq<Record>, split: nat) {
    && |t.vRandom| == |recs| && (forall k :: 0 <= k < |recs| ==> t.vRandom[k] == k)
    && (forall id :: id in t.mapInfo <==> 0 <= id < |recs|)
    && (forall k :: 0 <= k < |recs| ==>
          t.mapInfo[k] == Entry(recs[k], k >= split, k).(nRefCount := t.mapInfo[k].nRefCount))
    && FullIndex(t.mapAddr, recs)
  }

  /** The index has every full service and leads to an entry that has it. */
  ghost predicate FullIndex(mapAddr: map<Service, int>, recs: seq<Record>) {
    && (forall k :: 0 <= k < |recs| ==> recs[k].addr.service in mapAddr)
    && (forall a <- mapAddr :: 0 <= mapAddr[a] < |recs| && recs[mapAddr[a]].addr.service == a)
  }

  lemma MirrorsNext(t: State, recs: seq<Record>, split: nat, r: Record)
    requires Mirrors(t, recs, split)
    ensures Mirrors(AddEntry(t, |recs|, Entry(r, |recs| >= split, |recs|)), recs + [r], split)
  {
    IndexNext(t.mapAddr, recs, r);
  }

  lemma IndexNext(mapAddr: map<Service, int>, recs: seq<Record>, r: Record)
    requires FullIndex(mapAddr, recs)
    ensures FullIndex(mapAddr[r.addr.service := |recs|], recs + [r])
  {
  }

  ghost predicate NoPlaces(t: State) {
    t.vvNew == map[] && forall k <- t.mapInfo :: t.mapInfo[k].nRefCount == 0
  }

  ghost predicate OnlyEntries(s: State, t: State) {
    t == s.(mapInfo := t.mapInfo, mapAddr := t.mapAddr, vRandom := t.vRandom)
  }

  /** The new entries, which have no places yet. */
  ghost predicate NewsLike(s: State, t: State, news: seq<Record>) {
    Mirrors(t, news, |news|) && NoPlaces(t) && OnlyEntries(s, t)
  }

  lemma {:induction false} NewsMirrored(s: State, news: seq<Record>)
    requires s.mapInfo == map[] && s.mapAddr == map[] && s.vRandom == [] && s.vvNew == map[]
    ensures NewsLike(s, LoadNew(s, news, true), news)
    decreases |news|
  {
    if news != [] {
      var n := |news| - 1;
      NewsMirrored(s, news[..n]);
      assert news[..n + 1] == news;
      NewMirrored(s, LoadNew(s, news[..n], true), news, n);
    }
  }

  lemma NewMirrored(s: State, t: State, news: seq<Record>, n: nat)
    requires n < |news| && NewsLike(s, t, news[..n])
    ensures NewsLike(s, NewStep(t, news[n], n, true), news[..n + 1])
  {
    var recs, r := news[..n], news[n];
    assert news[..n + 1] == recs + [r];
    Resplit(t, recs, n, n + 1);
    MirrorsNext(t, recs, n + 1, r);
  }

  lemma Resplit(t: State, recs: seq<Record>, split: nat, split': nat)
    requires Mirrors(t, recs, split) && split >= |recs| && split' >= |recs|
    ensures Mirrors(t, recs, split')
  {
  }

  /** The tried entries from `split` on sit at their computed slots. */
  ghost predicate TriedMirrored(t: State, recs: seq<Record>, split: nat) {
    && (forall slot <- t.vvTried ::
          split <= t.vvTried[slot] < |recs| && slot == TriedSlot(t.cfg, recs[t.vvTried[slot]].addr.service))
    && (forall k :: split <= k < |recs| ==>
          var slot := TriedSlot(t.cfg, recs[k].addr.service); slot in t.vvTried && t.vvTried[slot] == k)
  }

  ghost predicate DistinctSlots(c: Config, recs: seq<Record>, split: nat) {
    forall i, j :: split <= i < j < |recs| ==> TriedSlot(c, recs[i].addr.service) != TriedSlot(c, recs[j].addr.service)
  }

  /** No tried entry is lost. */
  lemma {:induction false} TriedsMirrored(s: State, news: seq<Record>, trieds: seq<Record>)
    requires Mirrors(s, news, |news|) && NoPlaces(s) && s.vvTried == map[] && s.nIdCount == |news|
    requires DistinctSlots(s.cfg, news + trieds, |news|)
    ensures BothMirrored(s, LoadTried(s, trieds), news + trieds, |news|)
    decreases |trieds|
  {
    if trieds == [] {
      assert news + trieds == news;
    } else {
      var n, r := |trieds| - 1, trieds[|trieds| - 1];
      var recs := news + trieds[..n];
      assert news + trieds == recs + [r] && recs == (news + trieds)[..|recs|];
      SlotsPrefix(s.cfg, recs, r, |news|);
      TriedsMirrored(s, news, trieds[..n]);
      TriedMirroredNext(s, LoadTried(s, trieds[..n]), recs, |news|, r);
    }
  }

  /** New and tried entries are numbered in order, tried ones are at their slots, and the rest is as in `s`. */
  ghost predicate BothMirrored(s: State, t: State, recs: seq<Record>, split: nat) {
    && Mirrors(t, recs, split) && TriedMirrored(t, recs, split) && NoPlaces(t) && t.nIdCount == |recs|
    && t.cfg == s.cfg && t.nTried == s.nTried && t.nNew == s.nNew && t.nLastGood == s.nLastGood
  }

  lemma SlotsPrefix(c: Config, recs: seq<Record>, r: Record, split: nat)
    requires DistinctSlots(c, recs + [r], split)
    ensures DistinctSlots(c, recs, split)
  {
    var all := recs + [r];
    forall i, j | split <= i < j < |recs|
      ensures TriedSlot(c, recs[i].addr.service) != TriedSlot(c, recs[j].addr.service)
    {
      assert recs[i] == all[i] && recs[j] == all[j];
    }
  }

  lemma TriedMirroredNext(s: State, t: State, recs: seq<Record>, split: nat, r: Record)
    requires BothMirrored(s, t, recs, split) && split <= |recs|
    requires DistinctSlots(t.cfg, recs + [r], split)
    ensures BothMirrored(s, TriedStep(t, r), recs + [r], split)
  {
    SlotIsFree(t, recs, split, r);
    MirrorsNext(t, recs, split, r);
    SlotTaken(t, TriedStep(t, r), recs, split, r);
  }

  lemma SlotTaken(t: State, t': State, recs: seq<Record>, split: nat, r: Record)
    requires TriedMirrored(t, recs, split) && split <= |recs| && t'.cfg == t.cfg
    requires TriedSlot(t.cfg, r.addr.service) !in t.vvTried
             && t'.vvTried == t.vvTried[TriedSlot(t.cfg, r.addr.service) := |recs|]
    ensures TriedMirrored(t', recs + [r], split)
  {
  }

  lemma SlotIsFree(t: State, recs: seq<Record>, split: nat, r: Record)
    requires TriedMirrored(t, recs, split) && split <= |recs| && DistinctSlots(t.cfg, recs + [r], split)
    ensures TriedSlot(t.cfg, r.addr.service) !in t.vvTried
  {
    forall slot <- t.vvTried ensures slot != TriedSlot(t.cfg, r.addr.service) {
      OtherSlot(t.cfg, recs, split, r, t.vvTried[slot]);
    }
  }

  lemma OtherSlot(c: Config, recs: seq<Record>, split: nat, r: Record, k: nat)
    requires DistinctSlots(c, recs + [r], split) && split <= k < |recs|
    ensures TriedSlot(c, recs[k].addr.service) != TriedSlot(c, r.addr.service)
  {
    var all := recs + [r];
    assert all[k] == recs[k] && all[|recs|] == r;
  }

  // ----- Places in the new table -----

  /** The number of a new entry on disk. */
  ghost function Number(o: State, id: int): nat
    requires id >= 0
  {
    |Ids(o.mapInfo, id, false)|
  }

  /** The facts about the original that places are rebuilt from. */
  ghost predicate Original(o: State, recs: seq<Record>, split: nat) {
    && IdsOk(o.mapInfo, o.nIdCount) && NewTableOk(o.cfg, o.mapInfo, o.vvNew) && RefsOk(o.mapInfo, o.vvNew, {})
    && split == |Ids(o.mapInfo, o.nIdCount, false)| <= |recs|
    && (forall k :: 0 <= k < split ==> recs[k] == RecordOf(o.mapInfo[Ids(o.mapInfo, o.nIdCount, false)[k]]))
  }

  /** A slot of the original leads to its entry on disk. */
  lemma NumberFits(o: State, recs: seq<Record>, split: nat, slot: Slot)
    requires Original(o, recs, split) && slot in o.vvNew
    ensures var id := o.vvNew[slot];
            && id in o.mapInfo && 0 <= id && Number(o, id) < split
            && Ids(o.mapInfo, o.nIdCount, false)[Number(o, id)] == id
            && recs[Number(o, id)] == RecordOf(o.mapInfo[id])
  {
    var id := o.vvNew[slot];
    assert id in o.mapInfo;
    assert slot in Refs(o.vvNew, id);
    IdsAt(o.mapInfo, id, o.nIdCount, false);
  }

  /** The slots in `done` are filled as in the original, and the reference counts are exact. */
  ghost predicate Placed(o: State, t: State, done: set<Slot>, split: nat) {
    FilledLike(o, t.vvNew, done) && CountsExact(t.mapInfo, t.vvNew)
  }

  ghost predicate FilledLike(o: State, vvNew: Table, done: set<Slot>) {
    && vvNew.Keys == done && done <= o.vvNew.Keys
    && (forall slot <- done :: o.vvNew[slot] >= 0 && vvNew[slot] == Number(o, o.vvNew[slot]))
  }

  ghost predicate CountsExact(m: map<int, Info>, vvNew: Table) {
    forall k <- m :: m[k].nRefCount == |Refs(vvNew, k)|
  }

  /** What reading buckets leaves alone. */
  ghost predicate OnlyPlaces(s: State, t: State) {
    t == s.(mapInfo := t.mapInfo, vvNew := t.vvNew)
  }

  /** So far an entry has only places that it had. */
  lemma FewerRefs(o: State, t: State, done: set<Slot>, recs: seq<Record>, split: nat, slot: Slot)
    requires Original(o, recs, split) && Placed(o, t, done, split) && slot in o.vvNew && slot !in done
    ensures var id := o.vvNew[slot]; id >= 0 && |Refs(t.vvNew, Number(o, id))| < NEW_BUCKETS_PER_ADDRESS
  {
    NumberFits(o, recs, split, slot);
    var id := o.vvNew[slot];
    var mine, its := Refs(t.vvNew, Number(o, id)), Refs(o.vvNew, id);
    forall x <- mine ensures x in its - {slot} {
      NumberFits(o, recs, split, x);
    }
    SubsetSize(mine, its - {slot});
    assert slot in its && o.mapInfo[id].nRefCount == |its|;
  }

  lemma {:induction false} SubsetSize(a: set<Slot>, b: set<Slot>)
    requires a <= b
    ensures |a| <= |b|
  {
    assert b == a + (b - a);
  }

  /** An index from disk goes back to its slot. */
  lemma PlaceBack(o: State, t: State, done: set<Slot>, recs: seq<Record>, split: nat, slot: Slot)
    requires Original(o, recs, split) && Placed(o, t, done, split) && slot in o.vvNew && slot !in done
    requires Mirrors(t, recs, split) && t.nNew == split && t.cfg == o.cfg
    ensures o.vvNew[slot] >= 0 && Number(o, o.vvNew[slot]) in t.mapInfo
    ensures LoadPlace(t, slot.bucket, Number(o, o.vvNew[slot]), true) == AddPlace(t, Number(o, o.vvNew[slot]), slot)
  {
    NumberFits(o, recs, split, slot);
    FewerRefs(o, t, done, recs, split, slot);
    var k := Number(o, o.vvNew[slot]);
    assert k in t.mapInfo && t.mapInfo[k].addr == recs[k].addr;
    assert slot.pos == BucketPosition(o.cfg, o.mapInfo[o.vvNew[slot]].addr.service, true, slot.bucket);
    assert slot !in t.vvNew;
  }

  lemma PlacedNext(o: State, t: State, done: set<Slot>, recs: seq<Record>, split: nat, slot: Slot)
    requires Placed(o, t, done, split) && slot in o.vvNew && slot !in done && o.vvNew[slot] >= 0
    requires Mirrors(t, recs, split) && Number(o, o.vvNew[slot]) in t.mapInfo
    ensures var t' := AddPlace(t, Number(o, o.vvNew[slot]), slot);
            Placed(o, t', done + {slot}, split) && Mirrors(t', recs, split) && OnlyPlaces(t, t')
  {
    var k := Number(o, o.vvNew[slot]);
    PlaceFills(o, t.vvNew, done, slot);
    PlaceCounts(t.mapInfo, t.vvNew, slot, k);
    PlaceMirrors(t, recs, split, k, slot);
  }

  lemma PlaceFills(o: State, vvNew: Table, done: set<Slot>, slot: Slot)
    requires FilledLike(o, vvNew, done) && slot in o.vvNew && o.vvNew[slot] >= 0
    ensures FilledLike(o, vvNew[slot := Number(o, o.vvNew[slot])], done + {slot})
  {
    assert vvNew[slot := Number(o, o.vvNew[slot])].Keys == done + {slot};
  }

  lemma PlaceCounts(m: map<int, Info>, vvNew: Table, slot: Slot, k: int)
    requires CountsExact(m, vvNew) && slot !in vvNew && k in m
    ensures CountsExact(m[k := m[k].(nRefCount := m[k].nRefCount + 1)], vvNew[slot := k])
  {
    var m', v := m[k := m[k].(nRefCount := m[k].nRefCount + 1)], vvNew[slot := k];
    forall x <- m' ensures m'[x].nRefCount == |Refs(v, x)| {
      RefsPlus(vvNew, slot, k, x);
      assert slot !in Refs(vvNew, x);
    }
  }

  lemma PlaceMirrors(t: State, recs: seq<Record>, split: nat, k: int, slot: Slot)
    requires Mirrors(t, recs, split) && k in t.mapInfo
    ensures Mirrors(AddPlace(t, k, slot), recs, split) && OnlyPlaces(t, AddPlace(t, k, slot))
  {
  }

  lemma RefsPlus(t: Table, slot: Slot, k: int, x: int)
    requires slot !in t
    ensures Refs(t[slot := k], x) == if x == k then Refs(t, x) + {slot} else Refs(t, x)
  {
  }

  /** The slots of the original in the first `b` buckets and at the first `i` positions of the next. */
  ghost function Before(o: State, b: nat, i: nat): set<Slot> {
    set slot | slot in o.vvNew && (slot.bucket < b || (slot.bucket == b && slot.pos < i))
  }

  /** Everything about a manager whose places have been read up to `done`. */
  ghost predicate Restored(o: State, s: State, t: State, done: set<Slot>, recs: seq<Record>, split: nat) {
    Placed(o, t, done, split) && Mirrors(t, recs, split) && OnlyPlaces(s, t)
  }

  lemma {:induction false} BucketRestored(o: State, s: State, t: State, recs: seq<Record>, split: nat, b: nat, i: nat)
    requires Original(o, recs, split) && s.nNew == split && s.cfg == o.cfg
    requires forall slot <- o.vvNew :: o.vvNew[slot] >= 0
    requires Restored(o, s, t, Before(o, b, 0), recs, split)
    ensures Restored(o, s, LoadBucket(t, b, BucketList(o, b, i), true), Before(o, b, i), recs, split)
    decreases i
  {
    if i > 0 {
      BucketRestored(o, s, t, recs, split, b, i - 1);
      var slot, list := Slot(b, i - 1), BucketList(o, b, i - 1);
      var u := LoadBucket(t, b, list, true);
      if slot in o.vvNew {
        var x := Number(o, o.vvNew[slot]);
        assert BucketList(o, b, i) == list + [x];
        BeforeNext(o, b, i);
        PlaceRestored(o, s, u, Before(o, b, i - 1), recs, split, slot);
        LoadOneMore(t, b, list, x);
      } else {
        assert BucketList(o, b, i) == list + [] == list;
        BeforeNext(o, b, i);
      }
    }
  }

  lemma BeforeNext(o: State, b: nat, i: nat)
    requires i > 0
    ensures var slot := Slot(b, i - 1);
            slot !in Before(o, b, i - 1)
              && Before(o, b, i) == if slot in o.vvNew then Before(o, b, i - 1) + {slot} else Before(o, b, i - 1)
  {
  }

  lemma LoadOneMore(t: State, b: nat, list: seq<int>, x: int)
    ensures LoadBucket(t, b, list + [x], true) == LoadPlace(LoadBucket(t, b, list, true), b, x, true)
  {
    assert (list + [x])[..|list|] == list;
  }

  lemma PlaceRestored(o: State, s: State, t: State, done: set<Slot>, recs: seq<Record>, split: nat, slot: Slot)
    requires Original(o, recs, split) && s.nNew == split && s.cfg == o.cfg
    requires slot in o.vvNew && slot !in done && Restored(o, s, t, done, recs, split)
    ensures o.vvNew[slot] >= 0
            && Restored(o, s, LoadPlace(t, slot.bucket, Number(o, o.vvNew[slot]), true), done + {slot}, recs, split)
  {
    PlaceBack(o, t, done, recs, split, slot);
    PlacedNext(o, t, done, recs, split, slot);
  }

  lemma {:induction false} BucketsRestored(o: State, s: State, recs: seq<Record>, split: nat, buckets: seq<seq<int>>)
    requires Original(o, recs, split) && s.nNew == split && s.cfg == o.cfg && NoPlaces(s) && Mirrors(s, recs, split)
    requires forall slot <- o.vvNew :: o.vvNew[slot] >= 0
    requires forall b :: 0 <= b < |buckets| ==> buckets[b] == BucketList(o, b, BUCKET_SIZE)
    ensures Restored(o, s, LoadBuckets(s, buckets, true), Before(o, |buckets|, 0), recs, split)
    decreases |buckets|
  {
    if buckets == [] {
      NothingRestored(o, s, split);
    } else {
      var n := |buckets| - 1;
      BucketsRestored(o, s, recs, split, buckets[..n]);
      BucketRestored(o, s, LoadBuckets(s, buckets[..n], true), recs, split, n, BUCKET_SIZE);
      BeforeRow(o, n);
    }
  }

  lemma NothingRestored(o: State, s: State, split: nat)
    requires NoPlaces(s)
    ensures Placed(o, s, Before(o, 0, 0), split)
  {
    assert Before(o, 0, 0) == {};
    forall k <- s.mapInfo ensures Refs(s.vvNew, k) == {} {
    }
  }

  /** The end of one bucket is the start of the next. */
  lemma BeforeRow(o: State, n: nat)
    requires NewTableOk(o.cfg, o.mapInfo, o.vvNew)
    ensures Before(o, n, BUCKET_SIZE) == Before(o, n + 1, 0)
  {
    forall slot ensures slot in Before(o, n, BUCKET_SIZE) <==> slot in Before(o, n + 1, 0) {
      assert slot in o.vvNew ==> slot.pos < BUCKET_SIZE;
    }
  }

  // ----- The round trip -----

  /** The original ids in the order in which they are numbered anew. */
  ghost function Order(o: State): seq<int>
    requires o.nIdCount >= 0
  {
    Ids(o.mapInfo, o.nIdCount, false) + Ids(o.mapInfo, o.nIdCount, true)
  }

  /** A table after renumbering. */
  ghost predicate SameTable(t: Table, t': Table, order: seq<int>) {
    t'.Keys == t.Keys && forall slot <- t :: 0 <= t'[slot] < |order| && order[t'[slot]] == t[slot]
  }

  /** The same addresses in the same slots with the same stored fields; only times of attempts in memory are lost. */
  ghost predicate Reloaded(o: State, t: State, order: seq<int>) {
    && t.cfg == o.cfg && t.nNew == o.nNew && t.nTried == o.nTried
    && (forall id :: id in o.mapInfo <==> id in order) && (forall i, j :: 0 <= i < j < |order| ==> order[i] != order[j])
    && (forall id :: id in t.mapInfo <==> 0 <= id < |order|)
    && (forall k :: 0 <= k < |order| ==>
          t.mapInfo[k] == o.mapInfo[order[k]].(nRandomPos := k, nLastTry := 0, nLastCountAttempt := 0))
    && SameTable(o.vvNew, t.vvNew, order) && SameTable(o.vvTried, t.vvTried, order)
    && t.nIdCount == |order| && t.vRandom == seq(|order|, k => k)
  }

  /** Every entry is either new or tried. */
  ghost predicate OneOrOther(m: map<int, Info>) {
    forall id <- m :: Wanted(m[id], false) != Wanted(m[id], true)
  }

  lemma OrderHas(o: State, id: int)
    requires IdsOk(o.mapInfo, o.nIdCount) && OneOrOther(o.mapInfo) && id in o.mapInfo
    ensures id in Order(o)
  {
    var tried := Wanted(o.mapInfo[id], true);
    IdsAt(o.mapInfo, id, o.nIdCount, tried);
    assert id in Ids(o.mapInfo, o.nIdCount, tried);
  }

  lemma OrderDistinct(o: State, i: nat, j: nat)
    requires o.nIdCount >= 0 && OneOrOther(o.mapInfo) && i < j < |Order(o)|
    ensures Order(o)[i] != Order(o)[j]
  {
    var n, a, b := o.nIdCount, Ids(o.mapInfo, o.nIdCount, false), Ids(o.mapInfo, o.nIdCount, true);
    if j < |a| {
      IdsAscend(o.mapInfo, n, false, i, j);
    } else if i >= |a| {
      IdsAscend(o.mapInfo, n, true, i - |a|, j - |a|);
    } else {
      assert Wanted(o.mapInfo[a[i]], false) && Wanted(o.mapInfo[b[j - |a|]], true);
    }
  }

  /** Every entry is listed once. */
  lemma OrderListsAll(o: State)
    requires IdsOk(o.mapInfo, o.nIdCount) && OneOrOther(o.mapInfo)
    ensures forall id :: id in o.mapInfo <==> id in Order(o)
    ensures forall i, j :: 0 <= i < j < |Order(o)| ==> Order(o)[i] != Order(o)[j]
  {
    forall id | id in o.mapInfo ensures id in Order(o) {
      OrderHas(o, id);
    }
    forall i, j | 0 <= i < j < |Order(o)| ensures Order(o)[i] != Order(o)[j] {
      OrderDistinct(o, i, j);
    }
  }

  /** The records of an image, in order. */
  ghost predicate RecordsOf(o: State, order: seq<int>, recs: seq<Record>) {
    && |recs| == |order|
    && forall k :: 0 <= k < |order| ==> order[k] in o.mapInfo && recs[k] == RecordOf(o.mapInfo[order[k]])
  }

  lemma ImageRecords(o: State, img: Image)
    requires o.nIdCount >= 0 && Lists(o, false, img.news) && Lists(o, true, img.trieds)
    ensures RecordsOf(o, Order(o), img.news + img.trieds)
  {
  }

  /** Different tried entries have different slots. */
  lemma RecordsDiffer(o: State, order: seq<int>, recs: seq<Record>, split: nat)
    requires TriedTableOk(o.cfg, o.mapInfo, o.vvTried) && RecordsOf(o, order, recs)
    requires forall i, j :: 0 <= i < j < |order| ==> order[i] != order[j]
    requires forall k :: split <= k < |order| ==> o.mapInfo[order[k]].fInTried
    ensures DistinctSlots(o.cfg, recs, split)
  {
    forall i, j | split <= i < j < |recs|
      ensures TriedSlot(o.cfg, recs[i].addr.service) != TriedSlot(o.cfg, recs[j].addr.service)
    {
      assert order[i] != order[j] && order[i] in o.mapInfo && order[j] in o.mapInfo;
    }
  }

  lemma ImageAccepted(o: State, img: Image)
    requires Sound(o) && ImageOf(o, img)
    ensures Complete(img) && !Refused(img) && Usable(img) && |img.news| == img.nNew
  {
    CountersAreLengths(o);
    CountersFit(o);
    FlipTwice(NEW_BUCKET_COUNT);
  }

  lemma ImageDiffers(o: State, img: Image)
    requires Sound(o) && ImageOf(o, img)
    ensures OneOrOther(o.mapInfo) && Original(o, img.news + img.trieds, |img.news|)
    ensures DistinctSlots(o.cfg, img.news + img.trieds, |img.news|)
  {
    OrderListsAll(o);
    ImageRecords(o, img);
    RecordsDiffer(o, Order(o), img.news + img.trieds, |img.news|);
  }

  /** What the image of a manager says, before pruning. */
  ghost predicate LoadedLike(o: State, t: State, recs: seq<Record>, split: nat) {
    && Mirrors(t, recs, split) && TriedMirrored(t, recs, split) && Placed(o, t, Before(o, NEW_BUCKET_COUNT, 0), split)
    && t.cfg == o.cfg && t.nNew == o.nNew && t.nTried == o.nTried && t.nIdCount == |recs|
  }

  lemma LoadedImage(o: State, c: Config, img: Image)
    requires Sound(o) && ImageOf(o, img) && o.cfg == c.(nKey := o.cfg.nKey)
    ensures LoadedLike(o, Loaded(c, img), img.news + img.trieds, |img.news|)
  {
    ImageAccepted(o, img);
    ImageDiffers(o, img);
    LoadedStages(o, c, img, img.news + img.trieds, |img.news|);
  }

  lemma LoadedStages(o: State, c: Config, img: Image, recs: seq<Record>, split: nat)
    requires ImageOf(o, img) && o.cfg == c.(nKey := o.cfg.nKey) && Usable(img)
    requires recs == img.news + img.trieds && split == |img.news| == img.nNew
    requires Original(o, recs, split) && DistinctSlots(o.cfg, recs, split)
    ensures LoadedLike(o, Loaded(c, img), recs, split)
  {
    assert recs[..split] == img.news;
    var s0 := Header(c, img);
    NewsMirrored(s0, img.news);
    var s1 := LoadNew(s0, img.news, true).(nIdCount := img.nNew);
    assert Mirrors(s1, img.news, split) && NoPlaces(s1);
    TriedsMirrored(s1, img.news, img.trieds);
    BucketsRestored(o, LoadTried(s1, img.trieds), recs, split, img.buckets);
  }

  /** All slots are in the buckets. */
  lemma BeforeAll(o: State)
    requires NewTableOk(o.cfg, o.mapInfo, o.vvNew)
    ensures Before(o, NEW_BUCKET_COUNT, 0) == o.vvNew.Keys
  {
  }

  lemma NewTableSame(o: State, t: State, recs: seq<Record>, split: nat)
    requires Original(o, recs, split) && Placed(o, t, o.vvNew.Keys, split)
    ensures SameTable(o.vvNew, t.vvNew, Order(o))
  {
    forall slot <- o.vvNew ensures 0 <= t.vvNew[slot] < |Order(o)| && Order(o)[t.vvNew[slot]] == o.vvNew[slot] {
      NumberFits(o, recs, split, slot);
    }
  }

  lemma TriedTableSame(o: State, t: State, recs: seq<Record>, split: nat)
    requires IdsOk(o.mapInfo, o.nIdCount) && TriedTableOk(o.cfg, o.mapInfo, o.vvTried) && t.cfg == o.cfg
    requires split == |Ids(o.mapInfo, o.nIdCount, false)| && RecordsOf(o, Order(o), recs)
             && TriedMirrored(t, recs, split)
    ensures SameTable(o.vvTried, t.vvTried, Order(o))
  {
    forall slot | slot in t.vvTried ensures slot in o.vvTried {
      var k := t.vvTried[slot];
      assert Order(o)[k] == Ids(o.mapInfo, o.nIdCount, true)[k - split];
    }
    forall slot | slot in o.vvTried
      ensures slot in t.vvTried && 0 <= t.vvTried[slot] < |Order(o)| && Order(o)[t.vvTried[slot]] == o.vvTried[slot]
    {
      TriedSlotSame(o, t, recs, split, slot);
    }
  }

  lemma TriedSlotSame(o: State, t: State, recs: seq<Record>, split: nat, slot: Slot)
    requires IdsOk(o.mapInfo, o.nIdCount) && TriedTableOk(o.cfg, o.mapInfo, o.vvTried) && t.cfg == o.cfg
             && slot in o.vvTried
    requires split == |Ids(o.mapInfo, o.nIdCount, false)| && RecordsOf(o, Order(o), recs)
             && TriedMirrored(t, recs, split)
    ensures slot in t.vvTried && 0 <= t.vvTried[slot] < |Order(o)| && Order(o)[t.vvTried[slot]] == o.vvTried[slot]
  {
    var id := o.vvTried[slot];
    assert id in o.mapInfo && o.mapInfo[id].fInTried && slot == TriedSlot(o.cfg, o.mapInfo[id].addr.service);
    IdsAt(o.mapInfo, id, o.nIdCount, true);
    var k := split + |Ids(o.mapInfo, id, true)|;
    assert Order(o)[k] == id && recs[k] == RecordOf(o.mapInfo[id]);
  }

  /** The reference counts come back. */
  lemma CountsSame(o: State, t: State, recs: seq<Record>, split: nat, k: nat)
    requires Original(o, recs, split) && Placed(o, t, o.vvNew.Keys, split) && OneOrOther(o.mapInfo)
    requires k < |Order(o)| && k in t.mapInfo
    ensures t.mapInfo[k].nRefCount == o.mapInfo[Order(o)[k]].nRefCount
  {
    var id := Order(o)[k];
    forall slot ensures slot in Refs(t.vvNew, k) <==> slot in Refs(o.vvNew, id) {
      if slot in o.vvNew {
        NumberFits(o, recs, split, slot);
        if t.vvNew[slot] != k && o.vvNew[slot] == id {
          OrderSame(o, t.vvNew[slot], k);
        }
      }
    }
    assert Refs(t.vvNew, k) == Refs(o.vvNew, id);
    assert o.mapInfo[id].nRefCount == |Refs(o.vvNew, id)|;
  }

  lemma OrderSame(o: State, i: nat, j: nat)
    requires o.nIdCount >= 0 && OneOrOther(o.mapInfo) && i < |Order(o)| && j < |Order(o)| && Order(o)[i] == Order(o)[j]
    ensures i == j
  {
    if i < j {
      OrderDistinct(o, i, j);
    } else if j < i {
      OrderDistinct(o, j, i);
    }
  }

  lemma EntriesSame(o: State, t: State, recs: seq<Record>, split: nat)
    requires Original(o, recs, split) && Placed(o, t, o.vvNew.Keys, split) && OneOrOther(o.mapInfo)
    requires Mirrors(t, recs, split) && RecordsOf(o, Order(o), recs)
    ensures forall k :: 0 <= k < |Order(o)| ==>
              t.mapInfo[k] == o.mapInfo[Order(o)[k]].(nRandomPos := k, nLastTry := 0, nLastCountAttempt := 0)
  {
    forall k | 0 <= k < |Order(o)|
      ensures t.mapInfo[k] == o.mapInfo[Order(o)[k]].(nRandomPos := k, nLastTry := 0, nLastCountAttempt := 0)
    {
      CountsSame(o, t, recs, split, k);
      assert t.mapInfo[k].fInTried == o.mapInfo[Order(o)[k]].fInTried by {
        assert Wanted(o.mapInfo[Order(o)[k]], k >= split);
      }
    }
  }

  /** Reading back what was written gives the same manager up to the numbering, and leaves nothing to prune. */
  lemma ReloadedImage(o: State, c: Config, img: Image)
    requires Sound(o) && ImageOf(o, img) && o.cfg == c.(nKey := o.cfg.nKey)
    ensures Reloaded(o, Loaded(c, img), Order(o)) && NoOrphans(Loaded(c, img), Loaded(c, img).nIdCount)
    ensures FullIndex(Loaded(c, img).mapAddr, img.news + img.trieds) && RecordsOf(o, Order(o), img.news + img.trieds)
  {
    LoadedImage(o, c, img);
    ImageDiffers(o, img);
    ImageRecords(o, img);
    BeforeAll(o);
    ReloadedParts(o, Loaded(c, img), img.news + img.trieds, |img.news|);
    NothingToPrune(o, Loaded(c, img), Order(o));
  }

  lemma ReloadedParts(o: State, t: State, recs: seq<Record>, split: nat)
    requires Original(o, recs, split) && OneOrOther(o.mapInfo) && RecordsOf(o, Order(o), recs)
    requires TriedTableOk(o.cfg, o.mapInfo, o.vvTried) && Before(o, NEW_BUCKET_COUNT, 0) == o.vvNew.Keys
    requires LoadedLike(o, t, recs, split)
    ensures Reloaded(o, t, Order(o))
  {
    OrderListsAll(o);
    NewTableSame(o, t, recs, split);
    TriedTableSame(o, t, recs, split);
    EntriesSame(o, t, recs, split);
  }

  lemma NothingToPrune(o: State, t: State, order: seq<int>)
    requires Reloaded(o, t, order) && OneOrOther(o.mapInfo)
    ensures NoOrphans(t, t.nIdCount)
  {
    forall id | 0 <= id < t.nIdCount ensures !Orphan(t, id) {
      var x := order[id];
      assert x in order;
      assert x in o.mapInfo;
    }
  }

  /** Normalising changes no address of the manager. */
  ghost predicate NormalServices(o: State) {
    forall id <- o.mapInfo :: Normal(o.cfg, o.mapInfo[id].addr.service) == o.mapInfo[id].addr.service
  }

  lemma NormalServicesIff(o: State)
    ensures NormalServices(o) <==>
              o.cfg.discriminatePorts || forall id <- o.mapInfo :: o.mapInfo[id].addr.service.port == 0
  {
  }

  /** No two entries have the same full service. */
  ghost predicate NoTwins(o: State) {
    forall x, y :: x in o.mapInfo && y in o.mapInfo && o.mapInfo[x].addr.service == o.mapInfo[y].addr.service ==> x == y
  }

  lemma IndexedNoTwins(o: State)
    requires Indexed(o)
    ensures NoTwins(o)
  {
  }

  /**
    Store a manager and load it again.  Nothing is lost and the result is sound; but since
    the index is rebuilt by the full service, it is right if and only if normalising changes
    no address and no two entries share one.  For a manager with a right index that means
    that ports are told apart or no stored address has one.
   */
  method StoreAndLoad(o: State, c: Config) returns (t: State)
    requires Sound(o) && o.cfg == c.(nKey := o.cfg.nKey)
    ensures Reloaded(o, t, Order(o)) && Sound(t)
    ensures Indexed(t) <==> NormalServices(o) && NoTwins(o)
    ensures Indexed(o) ==>
              (Inv(t) <==> o.cfg.discriminatePorts || forall id <- o.mapInfo :: o.mapInfo[id].addr.service.port == 0)
  {
    var img := Serialize(o);
    ImageAccepted(o, img);
    var r := Unserialize(c, img);
    ReloadedImage(o, c, img);
    t := r.value;
    ReloadedSound(o, t);
    ReloadedIndexedIff(o, t, img.news + img.trieds);
    NormalServicesIff(o);
    if Indexed(o) {
      IndexedNoTwins(o);
    }
  }

  lemma ReloadedSound(o: State, t: State)
    requires Sound(o) && Reloaded(o, t, Order(o))
    ensures Sound(t)
  {
    ReloadedTables(o, t, Order(o));
    ReloadedCounts(o, t);
  }

  lemma ReloadedIndexedIff(o: State, t: State, recs: seq<Record>)
    requires Sound(o) && Reloaded(o, t, Order(o)) && FullIndex(t.mapAddr, recs) && RecordsOf(o, Order(o), recs)
    ensures Indexed(t) <==> NormalServices(o) && NoTwins(o)
  {
    if !NormalServices(o) {
      IndexWrong(o, t, recs);
    } else if !NoTwins(o) {
      TwinsWrong(o, t);
    } else {
      IndexRight(o, t, recs);
    }
  }

  /** The tables of the reloaded manager are consistent in any case. */
  lemma ReloadedTables(o: State, t: State, order: seq<int>)
    requires Reloaded(o, t, order) && NewTableOk(o.cfg, o.mapInfo, o.vvNew) && RefsOk(o.mapInfo, o.vvNew, {})
             && TriedTableOk(o.cfg, o.mapInfo, o.vvTried)
    ensures NewTableOk(t.cfg, t.mapInfo, t.vvNew) && TriedTableOk(t.cfg, t.mapInfo, t.vvTried)
            && RefsOk(t.mapInfo, t.vvNew, {})
    ensures RandomOk(t.mapInfo, t.vRandom) && IdsOk(t.mapInfo, t.nIdCount)
  {
    forall k | k in t.mapInfo ensures Refs(t.vvNew, k) == Refs(o.vvNew, order[k]) {
      RenumberedRefs(o.vvNew, t.vvNew, order, k);
    }
  }

  lemma RenumberedRefs(t: Table, t': Table, order: seq<int>, k: nat)
    requires SameTable(t, t', order) && k < |order| && forall i, j :: 0 <= i < j < |order| ==> order[i] != order[j]
    ensures Refs(t', k) == Refs(t, order[k])
  {
    forall slot ensures slot in Refs(t', k) <==> slot in Refs(t, order[k]) {
      if slot in t {
        assert order[t'[slot]] == t[slot];
      }
    }
  }

  ghost function Interval(a: int, b: int): (r: set<int>)
    requires a <= b
    ensures |r| == b - a && forall k :: k in r <==> a <= k < b
    decreases b - a
  {
    if a == b then {} else Interval(a, b - 1) + {b - 1}
  }

  /** The new entries come first. */
  lemma KindAt(o: State, k: nat)
    requires o.nIdCount >= 0 && OneOrOther(o.mapInfo) && k < |Order(o)|
    ensures Order(o)[k] in o.mapInfo && (o.mapInfo[Order(o)[k]].fInTried <==> k >= |Ids(o.mapInfo, o.nIdCount, false)|)
  {
    assert Wanted(o.mapInfo[Order(o)[k]], k >= |Ids(o.mapInfo, o.nIdCount, false)|);
  }

  lemma ReloadedCounts(o: State, t: State)
    requires Sound(o) && Reloaded(o, t, Order(o))
    ensures CountsOk(t.mapInfo, t.nNew, t.nTried, 0)
  {
    CountersAreLengths(o);
    forall k: nat | k < |Order(o)| ensures t.mapInfo[k].fInTried <==> k >= o.nNew {
      KindAt(o, k);
    }
    CountsAre(t, o.nNew, |Order(o)|);
  }

  lemma CountsAre(t: State, split: nat, n: nat)
    requires split <= n && (forall id :: id in t.mapInfo <==> 0 <= id < n)
    requires forall k :: 0 <= k < n ==> (t.mapInfo[k].fInTried <==> k >= split)
    ensures |NewIds(t.mapInfo)| == split && |TriedIds(t.mapInfo)| == n - split
  {
    assert NewIds(t.mapInfo) == Interval(0, split);
    assert TriedIds(t.mapInfo) == Interval(split, n);
  }

  lemma IndexRight(o: State, t: State, recs: seq<Record>)
    requires o.nIdCount >= 0 && Reloaded(o, t, Order(o)) && FullIndex(t.mapAddr, recs) && RecordsOf(o, Order(o), recs)
    requires NormalServices(o) && NoTwins(o)
    ensures AddrOk(t.cfg, t.mapInfo, t.mapAddr)
  {
    forall k | k in t.mapInfo
      ensures t.mapInfo[k].addr == recs[k].addr && Normal(t.cfg, recs[k].addr.service) == recs[k].addr.service
      ensures recs[k].addr.service in t.mapAddr && t.mapAddr[recs[k].addr.service] == k
    {
      assert Order(o)[k] in o.mapInfo;
      var i := t.mapAddr[recs[k].addr.service];
      assert Order(o)[i] in o.mapInfo && recs[i].addr.service == recs[k].addr.service;
      assert Order(o)[i] == Order(o)[k];
    }
  }

  lemma IndexWrong(o: State, t: State, recs: seq<Record>)
    requires IdsOk(o.mapInfo, o.nIdCount) && Reloaded(o, t, Order(o))
    requires FullIndex(t.mapAddr, recs) && RecordsOf(o, Order(o), recs) && !NormalServices(o)
    ensures !AddrOk(t.cfg, t.mapInfo, t.mapAddr)
  {
    var id :| id in o.mapInfo && Normal(o.cfg, o.mapInfo[id].addr.service) != o.mapInfo[id].addr.service;
    var k :| 0 <= k < |Order(o)| && Order(o)[k] == id;
    assert k in t.mapInfo && t.mapInfo[k].addr == recs[k].addr == o.mapInfo[id].addr;
    var a := Normal(o.cfg, o.mapInfo[id].addr.service);
    assert !(a in t.mapAddr && t.mapAddr[a] == k);
  }

  lemma TwinsWrong(o: State, t: State)
    requires IdsOk(o.mapInfo, o.nIdCount) && Reloaded(o, t, Order(o)) && !NoTwins(o)
    ensures !AddrOk(t.cfg, t.mapInfo, t.mapAddr)
  {
    var x, y :| x in o.mapInfo && y in o.mapInfo && o.mapInfo[x].addr.service == o.mapInfo[y].addr.service && x != y;
    var i :| 0 <= i < |Order(o)| && Order(o)[i] == x;
    var j :| 0 <= j < |Order(o)| && Order(o)[j] == y;
    assert i in t.mapInfo && j in t.mapInfo && t.mapInfo[i].addr.service == t.mapInfo[j].addr.service;
  }

  // ----- Any image -----

  /** Reference counts are exact, within the limit, and zero for tried entries. */
  ghost predicate RefsExact(m: map<int, Info>, t: Table) {
    forall id <- m ::
      && m[id].nRefCount == |Refs(t, id)| && m[id].nRefCount <= NEW_BUCKETS_PER_ADDRESS
      && (m[id].fInTried ==> m[id].nRefCount == 0)
  }

  /**
    All of soundness but the counters, with ids below `n`, those from `split` on tried,
    and new entries perhaps without a place.
   */
  ghost predicate Parts(s: State, split: int, n: int) {
    && RandomOk(s.mapInfo, s.vRandom) && IdsOk(s.mapInfo, n)
    && (forall id <- s.mapInfo :: s.mapInfo[id].fInTried <==> id >= split)
    && NewTableOk(s.cfg, s.mapInfo, s.vvNew) && RefsExact(s.mapInfo, s.vvNew)
    && TriedTableOk(s.cfg, s.mapInfo, s.vvTried)
  }

  lemma EntryParts(s: State, split: int, n: int, info: Info, vvTried: Table)
    requires Parts(s, split, n) && info.nRefCount == 0 && info.nRandomPos == |s.vRandom|
             && (info.fInTried <==> n >= split)
    requires if info.fInTried then
               TriedSlot(s.cfg, info.addr.service) !in s.vvTried
                 && vvTried == s.vvTried[TriedSlot(s.cfg, info.addr.service) := n]
             else vvTried == s.vvTried
    ensures Parts(AddEntry(s, n, info).(vvTried := vvTried), split, n + 1)
  {
    NewEntryRandom(s.mapInfo, s.vRandom, n, info);
    EntryTables(s.cfg, s.mapInfo, n, info, s.vvNew);
    EntryTried(s.cfg, s.mapInfo, n, info, s.vvTried, vvTried);
  }

  lemma EntryTables(c: Config, m: map<int, Info>, id: int, info: Info, t: Table)
    requires id !in m && info.nRefCount == 0 && NewTableOk(c, m, t) && RefsExact(m, t)
    ensures NewTableOk(c, m[id := info], t) && RefsExact(m[id := info], t)
  {
    assert Refs(t, id) == {};
  }

  lemma EntryTried(c: Config, m: map<int, Info>, id: int, info: Info, t: Table, t': Table)
    requires id !in m && TriedTableOk(c, m, t)
    requires if info.fInTried then
               TriedSlot(c, info.addr.service) !in t && t' == t[TriedSlot(c, info.addr.service) := id]
             else t' == t
    ensures TriedTableOk(c, m[id := info], t')
  {
  }

  lemma PlaceParts(s: State, split: int, n: int, id: int, slot: Slot)
    requires Parts(s, split, n) && id in s.mapInfo && id < split && s.mapInfo[id].nRefCount < NEW_BUCKETS_PER_ADDRESS
    requires slot !in s.vvNew && slot.bucket < NEW_BUCKET_COUNT
    requires slot.pos == BucketPosition(s.cfg, s.mapInfo[id].addr.service, true, slot.bucket)
    ensures Parts(AddPlace(s, id, slot), split, n)
  {
    var m' := AddPlace(s, id, slot).mapInfo;
    UpdateOne(s.mapInfo, s.vRandom, id, m'[id]);
    PlaceInTable(s.cfg, s.mapInfo, m', s.vvNew, slot, id);
    AlikeTriedTable(s.cfg, s.mapInfo, m', s.vvTried);
    PlaceExact(s.mapInfo, s.vvNew, slot, id);
  }

  lemma PlaceInTable(c: Config, m: map<int, Info>, m': map<int, Info>, t: Table, slot: Slot, id: int)
    requires NewTableOk(c, m, t) && SameServices(m, m') && id in m && slot.bucket < NEW_BUCKET_COUNT
    requires slot.pos == BucketPosition(c, m[id].addr.service, true, slot.bucket)
    ensures NewTableOk(c, m', t[slot := id])
  {
    AlikeNewTable(c, m, m', t);
    assert m'[id].addr.service == m[id].addr.service;
  }

  lemma PlaceExact(m: map<int, Info>, t: Table, slot: Slot, id: int)
    requires RefsExact(m, t) && slot !in t && id in m && !m[id].fInTried && m[id].nRefCount < NEW_BUCKETS_PER_ADDRESS
    ensures RefsExact(m[id := m[id].(nRefCount := m[id].nRefCount + 1)], t[slot := id])
  {
    PlaceCounts(m, t, slot, id);
  }

  /** What the records of the new table leave as they were. */
  ghost predicate OnlyNews(s: State, t: State) {
    t == s.(mapInfo := t.mapInfo, mapAddr := t.mapAddr, vRandom := t.vRandom, vvNew := t.vvNew)
  }

  /** After reading `n` records of the new table. */
  ghost predicate NewsRead(s: State, t: State, n: nat, split: int) {
    Parts(t, split, n) && OnlyNews(s, t) && forall id :: id in t.mapInfo <==> 0 <= id < n
  }

  lemma {:induction false} NewsParts(s: State, news: seq<Record>, usable: bool, split: nat)
    requires s.mapInfo == map[] && s.vRandom == [] && s.vvNew == map[] && s.vvTried == map[] && |news| <= split
    ensures NewsRead(s, LoadNew(s, news, usable), |news|, split)
    decreases |news|
  {
    if news != [] {
      var n := |news| - 1;
      NewsParts(s, news[..n], usable, split);
      NewParts(s, LoadNew(s, news[..n], usable), news[n], n, usable, split);
    }
  }

  lemma NewParts(s: State, t: State, r: Record, n: nat, usable: bool, split: int)
    requires NewsRead(s, t, n, split) && n < split
    ensures NewsRead(s, NewStep(t, r, n, usable), n + 1, split)
  {
    var info := Entry(r, false, |t.vRandom|);
    EntryParts(t, split, n, info, t.vvTried);
    var t1 := AddEntry(t, n, info);
    assert t1.(vvTried := t.vvTried) == t1;
    var slot := NewSlot(t.cfg, info.addr.service, info.source);
    if !usable && slot !in t1.vvNew {
      PlaceParts(t1, split, n + 1, n, slot);
    }
  }

  /** After reading `n` tried records: as many entries as were not lost. */
  ghost predicate TriedsRead(s: State, t: State, n: nat, split: int) {
    && Parts(t, split, t.nIdCount) && t.cfg == s.cfg && t.nNew == s.nNew
    && (forall id :: id in t.mapInfo <==> 0 <= id < t.nIdCount)
    && t.nIdCount >= split && t.nIdCount - split == t.nTried - s.nTried + n
  }

  lemma {:induction false} TriedsParts(s: State, trieds: seq<Record>, split: nat)
    requires Parts(s, split, split) && s.nIdCount == split && forall id :: id in s.mapInfo <==> 0 <= id < split
    ensures TriedsRead(s, LoadTried(s, trieds), |trieds|, split)
    decreases |trieds|
  {
    if trieds != [] {
      var n := |trieds| - 1;
      TriedsParts(s, trieds[..n], split);
      TriedParts(s, LoadTried(s, trieds[..n]), trieds[n], n, split);
    }
  }

  lemma TriedParts(s: State, t: State, r: Record, n: nat, split: nat)
    requires TriedsRead(s, t, n, split)
    ensures TriedsRead(s, TriedStep(t, r), n + 1, split)
  {
    var slot := TriedSlot(t.cfg, r.addr.service);
    if slot !in t.vvTried {
      EntryParts(t, split, t.nIdCount, Entry(r, true, |t.vRandom|), t.vvTried[slot := t.nIdCount]);
    }
  }

  lemma {:induction false} BucketParts(s: State, bucket: nat, list: seq<int>, usable: bool, split: int, n: int)
    requires Parts(s, split, n) && s.nNew == split && (usable ==> bucket < NEW_BUCKET_COUNT)
    ensures var t := LoadBucket(s, bucket, list, usable);
            Parts(t, split, n) && OnlyPlaces(s, t) && t.mapInfo.Keys == s.mapInfo.Keys
    decreases |list|
  {
    if list != [] {
      var last := list[|list| - 1];
      BucketParts(s, bucket, list[..|list| - 1], usable, split, n);
      var t := LoadBucket(s, bucket, list[..|list| - 1], usable);
      if LoadPlace(t, bucket, last, usable) != t {
        PlaceParts(t, split, n, last, Slot(bucket, BucketPosition(t.cfg, t.mapInfo[last].addr.service, true, bucket)));
      }
    }
  }

  lemma {:induction false} BucketsParts(s: State, buckets: seq<seq<int>>, usable: bool, split: int, n: int)
    requires Parts(s, split, n) && s.nNew == split && (usable ==> |buckets| <= NEW_BUCKET_COUNT)
    ensures var t := LoadBuckets(s, buckets, usable);
            Parts(t, split, n) && OnlyPlaces(s, t) && t.mapInfo.Keys == s.mapInfo.Keys
    decreases |buckets|
  {
    if buckets != [] {
      var k := |buckets| - 1;
      BucketsParts(s, buckets[..k], usable, split, n);
      BucketParts(LoadBuckets(s, buckets[..k], usable), k, buckets[k], usable, split, n);
    }
  }

  /** What any image with counters that are not negative comes to before pruning. */
  lemma LoadedParts(c: Config, img: Image)
    requires Complete(img) && img.nNew >= 0 && img.nTried >= 0
    ensures var t := Loaded(c, img);
            && Parts(t, img.nNew, t.nIdCount) && t.nNew == img.nNew && t.nIdCount == img.nNew + t.nTried
            && (forall id :: id in t.mapInfo <==> 0 <= id < t.nIdCount) && t.nTried >= 0
  {
    var split, s := img.nNew, Header(c, img);
    NewsParts(s, img.news, Usable(img), split);
    var s1 := LoadNew(s, img.news, Usable(img)).(nIdCount := split);
    TriedsParts(s1, img.trieds, split);
    BucketsParts(LoadTried(s1, img.trieds), img.buckets, Usable(img), split, LoadTried(s1, img.trieds).nIdCount);
  }

  /** Pruning what has no place makes it sound. */
  lemma PrunedSound(s: State, t: State, split: nat)
    requires s.nTried >= 0 && s.nIdCount == split + s.nTried && s.nNew == split && Parts(s, split, s.nIdCount)
    requires (forall id :: id in s.mapInfo <==> 0 <= id < s.nIdCount) && Pruned(s, t, s.nIdCount)
    ensures Sound(t)
  {
    PrunedTables(s, t);
    CountsAre(s, split, s.nIdCount);
    AllListed(s.mapInfo, s.vRandom);
    AllListed(t.mapInfo, t.vRandom);
    assert TriedIds(t.mapInfo) == TriedIds(s.mapInfo);
  }

  lemma PrunedTables(s: State, t: State)
    requires s.nIdCount >= 0 && Parts(s, s.nNew, s.nIdCount) && Pruned(s, t, s.nIdCount)
    ensures IdsOk(t.mapInfo, t.nIdCount) && NewTableOk(t.cfg, t.mapInfo, t.vvNew)
    ensures RefsOk(t.mapInfo, t.vvNew, {}) && TriedTableOk(t.cfg, t.mapInfo, t.vvTried)
  {
    forall slot | slot in t.vvNew
      ensures t.vvNew[slot] in t.mapInfo && t.mapInfo[t.vvNew[slot]].addr == s.mapInfo[t.vvNew[slot]].addr
    {
      assert slot in Refs(s.vvNew, s.vvNew[slot]);
    }
    forall slot | slot in t.vvTried
      ensures t.vvTried[slot] in t.mapInfo && t.mapInfo[t.vvTried[slot]].fInTried
              && t.mapInfo[t.vvTried[slot]].addr == s.mapInfo[t.vvTried[slot]].addr
    {
      var id := s.vvTried[slot];
      assert id in s.mapInfo && s.mapInfo[id].fInTried;
      assert !Orphan(s, id) && id in t.mapInfo;
      assert t.mapInfo[id] == s.mapInfo[id].(nRandomPos := t.mapInfo[id].nRandomPos);
    }
  }

  /**
    Whatever is in the file, a manager that was loaded from it is sound if and only if its
    counters are not negative.
   */
  lemma LoadedSoundIff(c: Config, img: Image, t: State)
    requires Complete(img) && Pruned(Loaded(c, img), t, Max(Loaded(c, img).nIdCount, 0))
    ensures Sound(t) <==> img.nNew >= 0 && img.nTried >= 0
  {
    if img.nNew >= 0 && img.nTried >= 0 {
      LoadedParts(c, img);
      PrunedSound(Loaded(c, img), t, img.nNew);
    } else {
      NegativeStays(c, img);
      LoadedOrderly(c, img);
      forall id | id in t.mapInfo ensures id in Loaded(c, img).mapInfo {
      }
      FewerEntries(Loaded(c, img), t);
    }
  }

  /** A file with a negative counter that is not refused, and whatever it loads to is not sound. */
  lemma NegativeAccepted(c: Config, nKey: Key, t: State)
    requires Pruned(Loaded(c, NegativeImage(nKey)), t, Max(Loaded(c, NegativeImage(nKey)).nIdCount, 0))
    ensures Complete(NegativeImage(nKey)) && !Refused(NegativeImage(nKey)) && !Sound(t)
  {
    FlipTwice(NEW_BUCKET_COUNT);
    LoadedSoundIff(c, NegativeImage(nKey), t);
  }

  function NegativeImage(nKey: Key): Image {
    Image(1, 32, nKey, -1, 0, FlipBit30(NEW_BUCKET_COUNT), [], [], seq(NEW_BUCKET_COUNT, _ => []))
  }

  lemma FewerEntries(s: State, t: State)
    requires RandomOk(s.mapInfo, s.vRandom) && RandomOk(t.mapInfo, t.vRandom) && t.mapInfo.Keys <= s.mapInfo.Keys
    ensures |t.vRandom| <= |s.vRandom|
  {
    AllListed(s.mapInfo, s.vRandom);
    AllListed(t.mapInfo, t.vRandom);
    KeysSplit(s.mapInfo);
    KeysSplit(t.mapInfo);
    assert s.mapInfo.Keys == t.mapInfo.Keys + (s.mapInfo.Keys - t.mapInfo.Keys);
  }

  /** Reading never makes a negative counter good. */
  lemma NegativeStays(c: Config, img: Image)
    requires Complete(img)
    ensures Loaded(c, img).nNew == img.nNew && (img.nTried < 0 ==> Loaded(c, img).nTried < 0)
  {
    var s := LoadNew(Header(c, img), img.news, Usable(img));
    NewsKeep(Header(c, img), img.news, Usable(img));
    var s1 := s.(nIdCount := img.nNew);
    TriedsKeep(s1, img.trieds);
    BucketsKeep(LoadTried(s1, img.trieds), img.buckets, Usable(img));
  }

  lemma {:induction false} NewsKeep(s: State, news: seq<Record>, usable: bool)
    ensures OnlyNews(s, LoadNew(s, news, usable))
    decreases |news|
  {
    if news != [] {
      NewsKeep(s, news[..|news| - 1], usable);
    }
  }

  lemma {:induction false} TriedsKeep(s: State, trieds: seq<Record>)
    ensures LoadTried(s, trieds).nNew == s.nNew && LoadTried(s, trieds).nTried <= s.nTried
    decreases |trieds|
  {
    if trieds != [] {
      TriedsKeep(s, trieds[..|trieds| - 1]);
    }
  }

  lemma {:induction false} BucketKeep(s: State, bucket: nat, list: seq<int>, usable: bool)
    ensures OnlyPlaces(s, LoadBucket(s, bucket, list, usable))
    decreases |list|
  {
    if list != [] {
      BucketKeep(s, bucket, list[..|list| - 1], usable);
    }
  }

  lemma {:induction false} BucketsKeep(s: State, buckets: seq<seq<int>>, usable: bool)
    ensures OnlyPlaces(s, LoadBuckets(s, buckets, usable))
    decreases |buckets|
  {
    if buckets != [] {
      var k := |buckets| - 1;
      BucketsKeep(s, buckets[..k], usable);
      BucketKeep(LoadBuckets(s, buckets[..k], usable), k, buckets[k], usable);
    }
  }

  // ----- Which records are kept -----

  /** No earlier record has this slot. */
  ghost predicate Earliest(slots: seq<Slot>, k: nat)
    requires k < |slots|
  {
    forall j :: 0 <= j < k ==> slots[j] != slots[k]
  }

  ghost function NewSlots(c: Config, news: seq<Record>): (slots: seq<Slot>)
    ensures |slots| == |news|
  {
    seq(|news|, i requires 0 <= i < |news| => NewSlot(c, news[i].addr.service, news[i].source))
  }

  ghost function TriedSlots(c: Config, trieds: seq<Record>): (slots: seq<Slot>)
    ensures |slots| == |trieds|
  {
    seq(|trieds|, i requires 0 <= i < |trieds| => TriedSlot(c, trieds[i].addr.service))
  }

  /** The table has the slots of the first `n` records. */
  ghost predicate SlotsOf(t: Table, slots: seq<Slot>, n: nat)
    requires n <= |slots|
  {
    (forall k :: 0 <= k < n ==> slots[k] in t) && forall slot <- t :: exists k :: 0 <= k < n && slots[k] == slot
  }

  lemma EarliestIsFree(t: Table, slots: seq<Slot>, n: nat)
    requires n < |slots| && SlotsOf(t, slots, n)
    ensures Earliest(slots, n) <==> slots[n] !in t
  {
  }

  lemma SlotsOfNext(t: Table, t': Table, slots: seq<Slot>, n: nat)
    requires n < |slots| && SlotsOf(t, slots, n) && t'.Keys == t.Keys + {slots[n]}
    ensures SlotsOf(t', slots, n + 1)
  {
  }

  /** The first `n` new records when the buckets cannot be used: the earliest in each slot have it. */
  ghost predicate NewsPlaced(t: State, news: seq<Record>, n: nat)
    requires n <= |news|
  {
    var slots := NewSlots(t.cfg, news);
    SlotsOf(t.vvNew, slots, n) && |t.vRandom| == n && forall k :: 0 <= k < n ==> NewPlaced(t, news, slots, k)
  }

  ghost predicate NewPlaced(t: State, news: seq<Record>, slots: seq<Slot>, k: nat)
    requires k < |news| == |slots|
  {
    && k in t.mapInfo && t.mapInfo[k] == Entry(news[k], false, k).(nRefCount := if Earliest(slots, k) then 1 else 0)
    && (Earliest(slots, k) ==> slots[k] in t.vvNew && t.vvNew[slots[k]] == k)
  }

  lemma {:induction false} NewsPlacedAll(s: State, news: seq<Record>, n: nat)
    requires s.mapInfo == map[] && s.vRandom == [] && s.vvNew == map[] && n <= |news|
    ensures var t := LoadNew(s, news[..n], false);
            t.cfg == s.cfg && NewsPlaced(t, news, n)
    decreases n
  {
    if n > 0 {
      var m := n - 1;
      NewsPlacedAll(s, news, m);
      NewsPlacedNext(LoadNew(s, news[..m], false), news, m, n);
      assert news[..n][..m] == news[..m];
    }
  }

  lemma NewsPlacedNext(t: State, news: seq<Record>, n: nat, m: nat)
    requires n < |news| && m == n + 1 && NewsPlaced(t, news, n)
    ensures NewsPlaced(NewStep(t, news[n], n, false), news, m)
  {
    var slots, t' := NewSlots(t.cfg, news), NewStep(t, news[n], n, false);
    EarliestIsFree(t.vvNew, slots, n);
    SlotsOfNext(t.vvNew, t'.vvNew, slots, n);
    forall k | 0 <= k < m ensures NewPlaced(t', news, slots, k) {
      if k < n {
        NewStays(t, news, slots, k, n);
      } else {
        NewEnters(t, news, slots, n);
      }
    }
  }

  lemma NewStays(t: State, news: seq<Record>, slots: seq<Slot>, k: nat, n: nat)
    requires k < n < |news| == |slots| && NewPlaced(t, news, slots, k)
    ensures NewPlaced(NewStep(t, news[n], n, false), news, slots, k)
  {
  }

  lemma NewEnters(t: State, news: seq<Record>, slots: seq<Slot>, n: nat)
    requires n < |news| && slots == NewSlots(t.cfg, news) && |t.vRandom| == n
    requires Earliest(slots, n) <==> slots[n] !in t.vvNew
    ensures NewPlaced(NewStep(t, news[n], n, false), news, slots, n)
  {
  }

  lemma {:induction false} TriedsSpare(s: State, trieds: seq<Record>)
    requires forall id <- s.mapInfo :: id < s.nIdCount
    ensures var t := LoadTried(s, trieds);
            t.vvNew == s.vvNew && t.nIdCount >= s.nIdCount && forall id <- s.mapInfo :: Spared(s, t, id)
    decreases |trieds|
  {
    if trieds != [] {
      TriedsSpare(s, trieds[..|trieds| - 1]);
    }
  }

  ghost predicate Spared(s: State, t: State, id: int)
    requires id in s.mapInfo
  {
    id in t.mapInfo && t.mapInfo[id] == s.mapInfo[id]
  }

  lemma {:induction false} BucketUnused(s: State, bucket: nat, list: seq<int>)
    ensures LoadBucket(s, bucket, list, false) == s
    decreases |list|
  {
    if list != [] {
      BucketUnused(s, bucket, list[..|list| - 1]);
    }
  }

  lemma {:induction false} BucketsUnused(s: State, buckets: seq<seq<int>>)
    ensures LoadBuckets(s, buckets, false) == s
    decreases |buckets|
  {
    if buckets != [] {
      var k := |buckets| - 1;
      BucketsUnused(s, buckets[..k]);
      BucketUnused(s, k, buckets[k]);
    }
  }

  /**
    If the buckets of a file cannot be used, its new records get one place each by their
    source, in the order of the file: a record is kept exactly if no earlier one has its
    slot, and then it is the one found there.
   */
  lemma NewKeptIff(c: Config, img: Image, t: State, k: nat)
    requires LoadsTo(c, img, t) && img.nTried >= 0 && !Usable(img) && k < |img.news|
    ensures var slots := NewSlots(t.cfg, img.news);
            && (k in t.mapInfo <==> forall j :: 0 <= j < k ==> slots[j] != slots[k])
            && (k in t.mapInfo ==>
                  && t.mapInfo[k]
                       == Entry(img.news[k], false, 0).(nRandomPos := t.mapInfo[k].nRandomPos, nRefCount := 1)
                  && slots[k] in t.vvNew && t.vvNew[slots[k]] == k)
            && t.cfg == c.(nKey := img.nKey)
  {
    var s := LoadNew(Header(c, img), img.news, false);
    NewsPlacedAll(Header(c, img), img.news, |img.news|);
    assert img.news[..|img.news|] == img.news;
    assert NewPlaced(s, img.news, NewSlots(s.cfg, img.news), k);
    LoadNewOrderly(Header(c, img), img.news, false);
    var s1 := s.(nIdCount := img.nNew);
    TriedsSpare(s1, img.trieds);
    var s2 := LoadTried(s1, img.trieds);
    BucketsUnused(s2, img.buckets);
    LoadedCfg(c, img);
    assert Spared(s1, s2, k);
    assert Orphan(s2, k) <==> !Earliest(NewSlots(s.cfg, img.news), k);
  }

  lemma LoadedCfg(c: Config, img: Image)
    ensures Loaded(c, img).cfg == c.(nKey := img.nKey)
  {
    var s := LoadNew(Header(c, img), img.news, Usable(img));
    NewsKeep(Header(c, img), img.news, Usable(img));
    TriedsCfg(s.(nIdCount := img.nNew), img.trieds);
    BucketsKeep(LoadTried(s.(nIdCount := img.nNew), img.trieds), img.buckets, Usable(img));
  }

  lemma {:induction false} TriedsCfg(s: State, trieds: seq<Record>)
    ensures LoadTried(s, trieds).cfg == s.cfg
    decreases |trieds|
  {
    if trieds != [] {
      TriedsCfg(s, trieds[..|trieds| - 1]);
    }
  }

  /** This record is the tried entry in this slot. */
  ghost predicate IsTried(t: State, slot: Slot, r: Record) {
    && slot in t.vvTried && t.vvTried[slot] in t.mapInfo
    && var info := t.mapInfo[t.vvTried[slot]]; info == Entry(r, true, 0).(nRandomPos := info.nRandomPos)
  }

  ghost predicate TriedsPlaced(t: State, trieds: seq<Record>, n: nat)
    requires n <= |trieds|
  {
    var slots := TriedSlots(t.cfg, trieds);
    && SlotsOf(t.vvTried, slots, n)
    && forall k :: 0 <= k < n && Earliest(slots, k) ==> IsTried(t, slots[k], trieds[k])
  }

  ghost predicate IdsFrom(t: State, split: nat) {
    && t.nIdCount >= split && (forall id <- t.mapInfo :: id < t.nIdCount)
    && forall slot <- t.vvTried :: t.vvTried[slot] >= split
  }

  lemma {:induction false} TriedsPlacedAll(s: State, trieds: seq<Record>, n: nat)
    requires s.vvTried == map[] && s.nIdCount >= 0 && n <= |trieds| && forall id <- s.mapInfo :: id < s.nIdCount
    ensures var t := LoadTried(s, trieds[..n]);
            t.cfg == s.cfg && TriedsPlaced(t, trieds, n) && IdsFrom(t, s.nIdCount)
    decreases n
  {
    if n > 0 {
      var m := n - 1;
      TriedsPlacedAll(s, trieds, m);
      var t := LoadTried(s, trieds[..m]);
      TriedsPlacedNext(t, trieds, m, n);
      TriedIdsFrom(t, trieds[m], s.nIdCount);
      assert trieds[..n][..m] == trieds[..m];
    }
  }

  lemma TriedIdsFrom(t: State, r: Record, split: nat)
    requires IdsFrom(t, split)
    ensures IdsFrom(TriedStep(t, r), split)
  {
  }

  lemma TriedsPlacedNext(t: State, trieds: seq<Record>, n: nat, m: nat)
    requires n < |trieds| && m == n + 1 && TriedsPlaced(t, trieds, n) && IdsFrom(t, 0)
    ensures TriedsPlaced(TriedStep(t, trieds[n]), trieds, m)
  {
    var slots, t' := TriedSlots(t.cfg, trieds), TriedStep(t, trieds[n]);
    TriedTaken(t, trieds[n]);
    forall k | 0 <= k < n && Earliest(slots, k) ensures IsTried(t', slots[k], trieds[k]) {
      TriedStays(t, trieds[n], slots[k], trieds[k]);
    }
    TriedsPlacedMore(t, t', trieds, slots, n, m);
  }

  lemma TriedsPlacedMore(t: State, t': State, trieds: seq<Record>, slots: seq<Slot>, n: nat, m: nat)
    requires n < |trieds| && m == n + 1 && slots == TriedSlots(t.cfg, trieds) && SlotsOf(t.vvTried, slots, n)
    requires t'.cfg == t.cfg && t'.vvTried.Keys == t.vvTried.Keys + {slots[n]}
    requires slots[n] !in t.vvTried ==> IsTried(t', slots[n], trieds[n])
    requires forall k :: 0 <= k < n && Earliest(slots, k) ==> IsTried(t', slots[k], trieds[k])
    ensures TriedsPlaced(t', trieds, m)
  {
    EarliestIsFree(t.vvTried, slots, n);
    SlotsOfNext(t.vvTried, t'.vvTried, slots, n);
  }

  lemma TriedTaken(t: State, r: Record)
    requires IdsFrom(t, 0)
    ensures var t', slot := TriedStep(t, r), TriedSlot(t.cfg, r.addr.service);
            && t'.cfg == t.cfg && t'.vvTried.Keys == t.vvTried.Keys + {slot}
            && (slot !in t.vvTried ==> IsTried(t', slot, r))
  {
  }

  lemma TriedStays(t: State, r: Record, slot: Slot, kept: Record)
    requires IsTried(t, slot, kept) && IdsFrom(t, 0)
    ensures IsTried(TriedStep(t, r), slot, kept)
  {
  }

  lemma {:induction false} BucketSpares(s: State, bucket: nat, list: seq<int>, usable: bool)
    ensures var t := LoadBucket(s, bucket, list, usable);
            && t.nNew == s.nNew && t.vvTried == s.vvTried
            && forall id <- s.mapInfo :: id >= s.nNew ==> Spared(s, t, id)
    decreases |list|
  {
    if list != [] {
      BucketSpares(s, bucket, list[..|list| - 1], usable);
    }
  }

  lemma {:induction false} BucketsSpare(s: State, buckets: seq<seq<int>>, usable: bool)
    ensures var t := LoadBuckets(s, buckets, usable);
            && t.nNew == s.nNew && t.vvTried == s.vvTried
            && forall id <- s.mapInfo :: id >= s.nNew ==> Spared(s, t, id)
    decreases |buckets|
  {
    if buckets != [] {
      var k := |buckets| - 1;
      BucketsSpare(s, buckets[..k], usable);
      BucketSpares(LoadBuckets(s, buckets[..k], usable), k, buckets[k], usable);
    }
  }

  /** The state when the tried records are read. */
  ghost function BeforeBuckets(c: Config, img: Image): State {
    LoadTried(LoadNew(Header(c, img), img.news, Usable(img)).(nIdCount := img.nNew), img.trieds)
  }

  lemma TriedsBefore(c: Config, img: Image)
    requires Complete(img) && img.nNew >= 0
    ensures var s := BeforeBuckets(c, img);
            && TriedsPlaced(s, img.trieds, |img.trieds|) && IdsFrom(s, img.nNew)
            && s.nNew == img.nNew && s.cfg == c.(nKey := img.nKey)
  {
    var s := LoadNew(Header(c, img), img.news, Usable(img));
    LoadNewOrderly(Header(c, img), img.news, Usable(img));
    NewsKeep(Header(c, img), img.news, Usable(img));
    TriedsPlacedAll(s.(nIdCount := img.nNew), img.trieds, |img.trieds|);
    TriedsKeep(s.(nIdCount := img.nNew), img.trieds);
    assert img.trieds[..|img.trieds|] == img.trieds;
  }

  /** Of the tried records of a file those are kept whose slot no earlier one has, whatever else is in the file. */
  lemma TriedKept(c: Config, img: Image, t: State)
    requires LoadsTo(c, img, t) && img.nNew >= 0
    ensures var slots := TriedSlots(t.cfg, img.trieds);
            && (forall k :: 0 <= k < |slots| ==> slots[k] in t.vvTried)
            && (forall slot <- t.vvTried :: exists k :: 0 <= k < |slots| && slots[k] == slot)
            && forall k :: 0 <= k < |slots| && (forall j :: 0 <= j < k ==> slots[j] != slots[k]) ==>
                 IsTried(t, slots[k], img.trieds[k])
  {
    var s := BeforeBuckets(c, img);
    TriedsBefore(c, img);
    BucketsSpare(s, img.buckets, Usable(img));
    LoadedCfg(c, img);
    var slots := TriedSlots(t.cfg, img.trieds);
    forall k | 0 <= k < |slots| && Earliest(slots, k) ensures IsTried(t, slots[k], img.trieds[k]) {
      TriedSurvives(s, Loaded(c, img), t, slots[k], img.trieds[k]);
    }
  }

  lemma TriedSurvives(s: State, s': State, t: State, slot: Slot, r: Record)
    requires IsTried(s, slot, r) && s.vvTried[slot] >= s.nNew && s'.vvTried == s.vvTried
    requires forall id <- s.mapInfo :: id >= s.nNew ==> Spared(s, s', id)
    requires Pruned(s', t, Max(s'.nIdCount, 0))
    ensures IsTried(t, slot, r)
  {
    var id := s.vvTried[slot];
    assert Spared(s, s', id);
    assert !Orphan(s', id);
  }

  // ----- Whole lives -----

  /** What happens to a manager: an operation, a restart of the node, or a start from some other file. */
  datatype Event = Do(op: Op) | Restart | Start(img: Image)

  ghost predicate LoadsTo(c: Config, img: Image, s': State) {
    Complete(img) && !Refused(img) && Pruned(Loaded(c, img), s', Max(Loaded(c, img).nIdCount, 0))
  }

  ghost predicate Happens(s: State, e: Event, s': State)
    requires Sound(s)
  {
    match e
    case Do(op) => Step(s, op, s')
    case Restart => exists img :: ImageOf(s, img) && LoadsTo(s.cfg, img, s')
    case Start(img) => img.nNew >= 0 && img.nTried >= 0 && LoadsTo(s.cfg, img, s')
  }

  ghost predicate Life(s: State, events: seq<Event>, s': State)
    decreases |events|
  {
    if events == [] then s == s'
    else Sound(s) && exists s1 :: Happens(s, events[0], s1) && Life(s1, events[1..], s')
  }

  lemma HappensSound(s: State, e: Event, s': State)
    requires Sound(s) && Happens(s, e, s')
    ensures Sound(s')
  {
    match e
    case Do(op) => StepKeepsInv(s, op, s');
    case Restart =>
      var img :| ImageOf(s, img) && LoadsTo(s.cfg, img, s');
      ImageAccepted(s, img);
      LoadedSoundIff(s.cfg, img, s');
    case Start(img) => LoadedSoundIff(s.cfg, img, s');
  }

  /**
    Through any operations, restarts and files the manager stays sound, although its index
    by address does not survive every restart: what the asserts of the source test holds.
   */
  lemma {:induction false} EveryLifeIsSound(s: State, events: seq<Event>, s': State)
    requires Sound(s) && Life(s, events, s')
    ensures Sound(s') && s'.nNew + s'.nTried == |s'.vRandom|
    decreases |events|
  {
    if events != [] {
      var s1 :| Happens(s, events[0], s1) && Life(s1, events[1..], s');
      HappensSound(s, events[0], s1);
      EveryLifeIsSound(s1, events[1..], s');
    } else {
      SizesAgree(s');
    }
  }

  /** The index does not survive one addition of an address with a port and a restart, if ports are not told apart. */
  lemma RestartLosesIndex(c: Config, a: Address, source: NetAddr, now: int, o: State, img: Image)
    requires !c.discriminatePorts && c.routable(a.service) && a.service.port != 0
    requires Sound(Fresh(c)) && o == Add(Fresh(c), a, source, 0, now, false) && ImageOf(o, img)
    ensures Run(Fresh(c), [AddOp(a, source, 0, now, false)], o) && Inv(o)
    ensures Sound(Loaded(c, img)) && !Indexed(Loaded(c, img)) && NoOrphans(Loaded(c, img), Loaded(c, img).nIdCount)
  {
    FreshInv(c);
    OneStep(Fresh(c), AddOp(a, source, 0, now, false), o);
    AddKeeps(Fresh(c), a, source, 0, now, false);
    AddToFreeSlot(Fresh(c), a, source, 0, now, false);
    ReloadedImage(o, c, img);
    ReloadedSound(o, Loaded(c, img));
    ReloadedIndexedIff(o, Loaded(c, img), img.news + img.trieds);
    assert 0 in o.mapInfo && Normal(c, o.mapInfo[0].addr.service) != o.mapInfo[0].addr.service;
  }
}
