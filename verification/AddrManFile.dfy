/** Saving and loading the address manager object, entry by entry and slot by slot. */
module AddrManFile {
  import opened Common
  import opened AddrManState
  import opened AddrManObject
  import opened AddrManDisk
  import opened AddrManRoundTrip

  // ---------------------------------------------------------------------
  // Saving
  // ---------------------------------------------------------------------

  lemma RecordsNext(s: State, n: int, tried: bool)
    requires n >= 0
    ensures Records(s, List(s, n + 1, tried)) ==
      Records(s, List(s, n, tried)) + if Listed(s, n, tried) then [RecordOf(s.info[n])] else []
  {
  }

  /** While entries are left to write, fewer have been written than announced. */
  ghost predicate Announced(s: State, tried: bool) {
    forall id :: Listed(s, id, tried) ==> |List(s, id, tried)| < if tried then s.nTried else s.nNew
  }

  lemma AllAnnounced(p: Params, s: State, tried: bool)
    requires p.Valid() && Core(p, s, {}, {})
    ensures Announced(s, tried)
  {
    ListCounts(p, s);
    forall id | Listed(s, id, tried) ensures |List(s, id, tried)| < if tried then s.nTried else s.nNew {
      ListAt(s, s.idCount, id, tried);
    }
  }

  /** The entries below `n` have been written, and those of all ids below `n` numbered. */
  ghost predicate Written(s: State, n: int, tried: bool, infos: seq<Record>, ids: map<int, int>) {
    && infos == Records(s, List(s, n, tried))
    && (forall k :: k in s.info && k < n ==> k in ids && ids[k] == |List(s, k, tried)|)
  }

  lemma WrittenNext(s: State, n: int, tried: bool, infos: seq<Record>, ids: map<int, int>)
    requires n >= 0 && Written(s, n, tried, infos, ids)
    ensures n !in s.info ==> Written(s, n + 1, tried, infos, ids)
    ensures n in s.info ==>
      Written(s, n + 1, tried, infos + if Listed(s, n, tried) then [RecordOf(s.info[n])] else [], ids[n := |infos|])
  {
    RecordsNext(s, n, tried);
  }

  /** Numbers an entry, and writes it if it belongs to the list. */
  method WriteEntry(m: AddrMan, tried: bool, id: int, infos: seq<Record>, ids: map<int, int>, ghost s: State)
    returns (more: seq<Record>, numbers: map<int, int>)
    requires s == m.View() && id >= 0 && Announced(s, tried) && Written(s, id, tried, infos, ids)
    ensures Written(s, id + 1, tried, more, numbers)
  {
    WrittenNext(s, id, tried, infos, ids);
    more, numbers := infos, ids;
    if id in m.mapInfo {
      var n := |infos|;
      numbers := ids[id := n];
      var info := m.mapInfo[id];
      if if tried then info.inTried else info.refCount != 0 {
        assert Listed(s, id, tried);
        assert n != if tried then m.nTried else m.nNew;
        more := infos + [RecordOf(info)];
      } else {
        assert infos + [] == infos;
      }
    }
  }

  /** Writes the entries of one list; also numbers all entries by their place in it. */
  method WriteEntries(m: AddrMan, tried: bool, ghost s: State) returns (infos: seq<Record>, ids: map<int, int>)
    requires s == m.View() && IdsOk(s) && Announced(s, tried)
    ensures infos == Records(s, List(s, s.idCount, tried))
    ensures forall id :: id in m.mapInfo ==> id in ids && ids[id] == |List(s, id, tried)|
  {
    infos, ids := [], map[];
    var id := 0;
    while id < m.nIdCount
      invariant 0 <= id <= m.nIdCount && Written(s, id, tried, infos, ids)
    {
      infos, ids := WriteEntry(m, tried, id, infos, ids, s);
      id := id + 1;
    }
  }

  method WriteBucket(m: AddrMan, bucket: int, ids: map<int, int>) returns (list: seq<int>)
    requires m.Shape() && NewOk(m.p, m.View()) && 0 <= bucket < m.p.newBuckets
    requires forall id :: id in m.mapInfo ==> id in ids && ids[id] == |List(m.View(), id, false)|
    ensures list == BucketList(m.View(), bucket, m.p.bucketSize)
  {
    ghost var s := m.View();
    list := [];
    var i := 0;
    while i < m.p.bucketSize
      invariant 0 <= i <= m.p.bucketSize && list == BucketList(s, bucket, i)
    {
      At(m.vvNew, bucket, i);
      if m.vvNew[bucket, i] != EMPTY {
        assert s.newSlots[Slot(bucket, i)] in s.info;
        list := list + [ids[m.vvNew[bucket, i]]];
      }
      i := i + 1;
    }
  }

  method Serialize(m: AddrMan) returns (f: Saved)
    requires m.Shape() && Core(m.p, m.View(), {}, {})
    ensures m.nNew >= 0 && m.nTried >= 0 && f == Save(m.p, m.View())
  {
    ghost var s := m.View();
    AllAnnounced(m.p, s, false);
    AllAnnounced(m.p, s, true);
    var newInfos, ids := WriteEntries(m, false, s);
    var triedInfos, _ := WriteEntries(m, true, s);
    var buckets: seq<seq<int>> := [];
    var bucket := 0;
    while bucket < m.p.newBuckets
      invariant 0 <= bucket <= m.p.newBuckets && |buckets| == bucket
      invariant forall b :: 0 <= b < bucket ==> buckets[b] == BucketList(s, b, m.p.bucketSize)
    {
      var list := WriteBucket(m, bucket, ids);
      buckets := buckets + [list];
      bucket := bucket + 1;
    }
    assert buckets == Buckets(m.p, s);
    f := Saved(1, 32, m.nKey, m.nNew, m.nTried, Flip(m.p.newBuckets), newInfos, triedInfos, buckets);
  }

  // ---------------------------------------------------------------------
  // Loading
  // ---------------------------------------------------------------------

  method ClearGrid(a: array2<int>)
    modifies a
    ensures Grid(a) == map[]
  {
    var b := 0;
    while b < a.Length0
      invariant 0 <= b <= a.Length0
      invariant forall c, i :: 0 <= c < b && 0 <= i < a.Length1 ==> a[c, i] == EMPTY
    {
      var i := 0;
      while i < a.Length1
        invariant 0 <= i <= a.Length1
        invariant forall c, j :: 0 <= c < b && 0 <= j < a.Length1 ==> a[c, j] == EMPTY
        invariant forall j :: 0 <= j < i ==> a[b, j] == EMPTY
      {
        a[b, i] := EMPTY;
        i := i + 1;
      }
      b := b + 1;
    }
  }

  /** Resets the tables, but for the two maps. */
  method Clear(m: AddrMan, key: nat)
    requires m.Shape()
    modifies m, m.vvNew, m.vvTried
    ensures m.mapInfo == old(m.mapInfo) && m.mapAddr == old(m.mapAddr)
    ensures m.View() == Init(key).(info := m.mapInfo, addr := m.mapAddr)
  {
    ClearGrid(m.vvNew);
    ClearGrid(m.vvTried);
    m.vRandom, m.nKey := [], key;
    m.nIdCount, m.nTried, m.nNew, m.nLastGood := 0, 0, 0, 1;
  }

  /** Cleared tables are consistent exactly when the object held no entries: the two maps keep theirs. */
  lemma ClearedTables(p: Params, key: nat, info: map<int, AddrInfo>, addr: map<NetAddr, int>, s: State)
    requires p.Valid() && s == Init(key).(info := info, addr := addr)
    ensures Core(p, s, {}, {}) <==> info == map[] && addr == map[]
  {
    if AddrOk(s) && RandomOk(s) {
      forall id ensures id !in info {}
      assert info == map[];
      forall a ensures a !in addr {}
      assert addr == map[];
    }
    if info == map[] {
      assert TriedIds(s) == {} && NewIds(s) == {};
    }
  }

  method ReadNewEntry(m: AddrMan, f: Saved, n: int, r: Record)
    requires m.Shape() && n >= 0
    modifies m`mapInfo, m`mapAddr, m`vRandom, m.vvNew
    ensures m.View() == ReadNew(m.p, f, old(m.View()), n, r)
  {
    ghost var s := m.View();
    var info := InfoOf(r, 0, false, |m.vRandom|);
    m.mapAddr := m.mapAddr[r.svc.ip := n];
    m.vRandom := m.vRandom + [n];
    if f.version != 1 || BucketCount(f) != m.p.newBuckets {
      var sl := m.p.NewSlot(m.nKey, r.svc, r.source);
      At(m.vvNew, sl.bucket, sl.pos);
      if m.vvNew[sl.bucket, sl.pos] == EMPTY {
        Put(m.vvNew, sl.bucket, sl.pos, n);
        info := info.(refCount := info.refCount + 1);
      }
    }
    m.mapInfo := m.mapInfo[n := info];
  }

  method ReadTriedEntry(m: AddrMan, r: Record) returns (lost: bool)
    requires m.Shape() && m.nIdCount >= 0
    modifies m`mapInfo, m`mapAddr, m`vRandom, m`nIdCount, m.vvTried
    ensures lost <==> m.p.TriedSlot(old(m.nKey), r.svc) in old(m.View()).triedSlots
    ensures m.View().(nTried := m.nTried - if lost then 1 else 0) == ReadTried(m.p, old(m.View()), r)
  {
    var sl := m.p.TriedSlot(m.nKey, r.svc);
    At(m.vvTried, sl.bucket, sl.pos);
    lost := m.vvTried[sl.bucket, sl.pos] != EMPTY;
    if !lost {
      m.mapInfo := m.mapInfo[m.nIdCount := InfoOf(r, 0, true, |m.vRandom|)];
      m.vRandom := m.vRandom + [m.nIdCount];
      m.mapAddr := m.mapAddr[r.svc.ip := m.nIdCount];
      Put(m.vvTried, sl.bucket, sl.pos, m.nIdCount);
      m.nIdCount := m.nIdCount + 1;
    }
  }

  method ReadBucketIndex(m: AddrMan, f: Saved, bucket: int, index: int)
    requires m.Shape() && 0 <= bucket < BucketCount(f) && (0 <= index < f.nNew ==> index in m.mapInfo)
    modifies m`mapInfo, m.vvNew
    ensures m.View() == ReadIndex(m.p, f, old(m.View()), bucket, index) && m.mapInfo.Keys == old(m.mapInfo.Keys)
  {
    if 0 <= index < f.nNew {
      var info := m.mapInfo[index];
      var pos := m.p.Pos(m.nKey, info.svc, true, bucket);
      if f.version == 1 && BucketCount(f) == m.p.newBuckets {
        At(m.vvNew, bucket, pos);
        if m.vvNew[bucket, pos] == EMPTY && info.refCount < NEW_BUCKETS_PER_ADDRESS {
          m.Link(Slot(bucket, pos), index, info.refCount + 1);
        }
      }
    }
  }

  lemma LoadNewNext(p: Params, f: Saved, n: nat, s: State, t: State)
    requires p.Valid() && n < |f.newInfos| && s == LoadNew(p, f, n) && t == ReadNew(p, f, s, n, f.newInfos[n])
    ensures t == LoadNew(p, f, n + 1)
  {
  }

  /** The tables are those after the first `n` new entries. */
  ghost predicate NewRead(m: AddrMan, f: Saved, n: int)
    reads m, m.vvNew, m.vvTried
  {
    m.Shape() && 0 <= n <= |f.newInfos| && m.View() == LoadNew(m.p, f, n)
  }

  /** All new entries have been read, and no tried one. */
  ghost predicate NewDone(m: AddrMan, f: Saved)
    reads m, m.vvNew, m.vvTried
  {
    m.Shape() && f.nNew <= |f.newInfos| && m.View() == LoadTried(m.p, f, 0)
  }

  method ReadNextNew(m: AddrMan, f: Saved, n: int)
    requires NewRead(m, f, n) && n < |f.newInfos|
    modifies m`mapInfo, m`mapAddr, m`vRandom, m.vvNew
    ensures NewRead(m, f, n + 1)
  {
    ghost var s := m.View();
    ReadNewEntry(m, f, n, f.newInfos[n]);
    LoadNewNext(m.p, f, n, s, m.View());
  }

  /** The next identifier follows those of the new entries. */
  method SetIdCount(m: AddrMan, f: Saved)
    requires NewRead(m, f, f.nNew)
    modifies m`nIdCount
    ensures NewDone(m, f)
  {
    m.nIdCount := f.nNew;
  }

  method ReadAllNew(m: AddrMan, f: Saved)
    requires NewRead(m, f, 0) && f.nNew <= |f.newInfos|
    modifies m`mapInfo, m`mapAddr, m`vRandom, m.vvNew
    ensures NewRead(m, f, f.nNew)
  {
    var n := 0;
    while n < f.nNew
      invariant n <= f.nNew
      invariant NewRead(m, f, n)
    {
      ReadNextNew(m, f, n);
      n := n + 1;
    }
  }

  method LoadNewEntries(m: AddrMan, f: Saved)
    requires NewRead(m, f, 0) && f.nNew <= |f.newInfos|
    modifies m`mapInfo, m`mapAddr, m`vRandom, m`nIdCount, m.vvNew
    ensures NewDone(m, f)
  {
    ReadAllNew(m, f);
    SetIdCount(m, f);
  }

  /** With the lost entries taken off, the tables are those after `n` tried entries. */
  ghost predicate TriedSoFar(p: Params, f: Saved, n: nat, s: State, lost: int)
    requires p.Valid() && f.nNew <= |f.newInfos| && n <= |f.triedInfos|
  {
    s.(nTried := s.nTried - lost) == LoadTried(p, f, n)
  }

  lemma TriedSoFarNext(p: Params, f: Saved, n: nat, s: State, lost: int, t: State, gone: bool)
    requires p.Valid() && f.nNew <= |f.newInfos| && n < |f.triedInfos| && TriedSoFar(p, f, n, s, lost)
    requires gone <==> p.TriedSlot(s.key, f.triedInfos[n].svc) in s.triedSlots
    requires t.(nTried := t.nTried - if gone then 1 else 0) == ReadTried(p, s, f.triedInfos[n])
    ensures TriedSoFar(p, f, n + 1, t, lost + if gone then 1 else 0)
  {
    ReadTriedAnyCount(p, s, f.triedInfos[n], s.nTried - lost);
  }

  method ReadNextTried(m: AddrMan, f: Saved, n: nat, lost: int) returns (more: int)
    requires m.Shape() && f.nNew <= |f.newInfos| && n < |f.triedInfos| && m.nIdCount >= 0
    requires TriedSoFar(m.p, f, n, m.View(), lost)
    modifies m`mapInfo, m`mapAddr, m`vRandom, m`nIdCount, m.vvTried
    ensures TriedSoFar(m.p, f, n + 1, m.View(), more) && m.nIdCount >= 0
  {
    ghost var s := m.View();
    var gone := ReadTriedEntry(m, f.triedInfos[n]);
    TriedSoFarNext(m.p, f, n, s, lost, m.View(), gone);
    more := if gone then lost + 1 else lost;
  }

  /** Entries that were lost are not counted as tried. */
  method TakeOff(m: AddrMan, lost: int)
    modifies m`nTried
    ensures m.View() == old(m.View()).(nTried := old(m.nTried) - lost)
  {
    m.nTried := m.nTried - lost;
  }

  method LoadTriedEntries(m: AddrMan, f: Saved)
    requires m.Shape() && f.nNew <= |f.newInfos| && f.nTried <= |f.triedInfos| && m.View() == LoadTried(m.p, f, 0)
    modifies m`mapInfo, m`mapAddr, m`vRandom, m`nIdCount, m`nTried, m.vvTried
    ensures m.View() == LoadTried(m.p, f, f.nTried)
  {
    var lost, n := 0, 0;
    while n < f.nTried
      invariant 0 <= n <= f.nTried && m.nIdCount >= 0 && TriedSoFar(m.p, f, n, m.View(), lost)
    {
      lost := ReadNextTried(m, f, n, lost);
      n := n + 1;
    }
    TakeOff(m, lost);
  }

  lemma ReadTriedAnyCount(p: Params, s: State, r: Record, n: int)
    requires p.Valid()
    ensures ReadTried(p, s.(nTried := n), r) ==
      ReadTried(p, s, r).(nTried := if p.TriedSlot(s.key, r.svc) in s.triedSlots then n - 1 else n)
  {
  }

  method LoadBucketList(m: AddrMan, f: Saved, bucket: int, list: seq<int>)
    requires m.Shape() && 0 <= bucket < BucketCount(f) && (forall k :: 0 <= k < f.nNew ==> k in m.mapInfo)
    modifies m`mapInfo, m.vvNew
    ensures m.View() == LoadBucket(m.p, f, old(m.View()), bucket, list) && m.mapInfo.Keys == old(m.mapInfo.Keys)
  {
    ghost var s := m.View();
    var n := 0;
    while n < |list|
      invariant 0 <= n <= |list| && m.View() == LoadBucket(m.p, f, s, bucket, list[..n])
      invariant m.mapInfo.Keys == s.info.Keys
    {
      ReadBucketIndex(m, f, bucket, list[n]);
      assert list[..n + 1][..n] == list[..n];
      n := n + 1;
    }
    assert list[..n] == list;
  }

  method LoadBucketLists(m: AddrMan, f: Saved)
    requires m.Shape() && f.nNew <= |f.newInfos| && f.nTried <= |f.triedInfos| && BucketCount(f) <= |f.buckets|
    requires m.View() == LoadTried(m.p, f, f.nTried)
    modifies m`mapInfo, m.vvNew
    ensures m.View() == LoadBuckets(m.p, f, Max(0, BucketCount(f)))
  {
    LoadTriedNumbered(m.p, f, f.nTried, m.View());
    var bucket := 0;
    while bucket < BucketCount(f)
      invariant 0 <= bucket <= Max(0, BucketCount(f)) && m.View() == LoadBuckets(m.p, f, bucket)
      invariant forall k :: 0 <= k < f.nNew ==> k in m.mapInfo
    {
      LoadBucketList(m, f, bucket, f.buckets[bucket]);
      bucket := bucket + 1;
    }
  }

  /** The tables are those of `s` after the ids below `n` have been looked at. */
  ghost predicate PrunedTo(m: AddrMan, s: State, n: int)
    reads m, m.vvNew, m.vvTried
  {
    m.Shape() && RandomOk(s) && n >= 0 && m.View() == Prune(s, n)
  }

  method PruneEntry(m: AddrMan, id: int, ghost s: State)
    requires PrunedTo(m, s, id)
    modifies m`mapInfo, m`mapAddr, m`vRandom, m`nNew
    ensures PrunedTo(m, s, id + 1)
  {
    ghost var t := m.View();
    if id in m.mapInfo && !m.mapInfo[id].inTried && m.mapInfo[id].refCount == 0 {
      m.Delete(id);
    }
    assert m.View() == PruneId(t, id);
  }

  method PruneLost(m: AddrMan)
    requires m.Shape() && RandomOk(m.View()) && m.nIdCount >= 0
    modifies m`mapInfo, m`mapAddr, m`vRandom, m`nNew
    ensures m.View() == Prune(old(m.View()), m.nIdCount)
  {
    ghost var s := m.View();
    var id := 0;
    while id < m.nIdCount
      invariant id <= m.nIdCount && PrunedTo(m, s, id)
    {
      PruneEntry(m, id, s);
      id := id + 1;
    }
  }

  /** Loads a file; if it is accepted, into an object without entries. `key` is the random key that clearing
      the tables draws. */
  method Unserialize(m: AddrMan, f: Saved, key: nat) returns (ok: bool)
    requires m.Shape() && (Accepted(m.p, f) ==> m.mapInfo == map[] && m.mapAddr == map[])
    modifies m, m.vvNew, m.vvTried
    ensures ok <==> Accepted(m.p, f)
    ensures ok ==> m.View() == Load(m.p, f)
  {
    Clear(m, key);
    if f.keySize != 32 { return false; }
    m.nKey, m.nNew, m.nTried := f.key, f.nNew, f.nTried;
    if f.nNew > m.p.newBuckets * m.p.bucketSize { return false; }
    if f.nTried > m.p.triedBuckets * m.p.bucketSize { return false; }
    if f.nNew > |f.newInfos| || f.nTried > |f.triedInfos| || BucketCount(f) > |f.buckets| { return false; }
    LoadNewEntries(m, f);
    LoadTriedEntries(m, f);
    LoadBucketLists(m, f);
    LoadBucketsNumbered(m.p, f, Max(0, BucketCount(f)), m.View());
    PruneLost(m);
    return true;
  }
}
