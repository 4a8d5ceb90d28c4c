/** Loading any accepted file gives consistent tables, but for the address index; that index is right
    exactly when all entries that share an address are pruned. */
module AddrManLoad {
  import opened Common
  import opened AddrManState
  import opened AddrManProofs
  import opened AddrManDisk

  // ---------------------------------------------------------------------
  // Entering one entry
  // ---------------------------------------------------------------------

  /** The tables with one more entry, in no bucket yet. */
  function Entered(s: State, i: AddrInfo): State {
    s.(idCount := s.idCount + 1,
       info := s.info[s.idCount := i.(randomPos := |s.rnd|)],
       addr := s.addr[i.svc.ip := s.idCount],
       rnd := s.rnd + [s.idCount])
  }

  lemma EnterIndexes(p: Params, s: State, i: AddrInfo, t: State)
    requires p.Valid() && IdsOk(s) && NewOk(p, s) && t == Entered(s, i)
    ensures IdsOk(t) && NewOk(p, t)
  {
  }

  lemma EnterRandom(s: State, i: AddrInfo, t: State)
    requires IdsOk(s) && RandomOk(s) && t == Entered(s, i)
    ensures RandomOk(t)
  {
  }

  lemma EnterRefs(p: Params, s: State, i: AddrInfo, t: State, zero: set<int>)
    requires p.Valid() && IdsOk(s) && NewOk(p, s) && RefsOk(s, zero) && i.refCount == 0 && t == Entered(s, i)
    ensures RefsOk(t, if i.inTried then zero else zero + {s.idCount})
  {
    RefsSame(s, t);
    assert Refs(s, s.idCount) == {};
  }

  lemma EnterNewIds(s: State, i: AddrInfo, t: State)
    requires IdsOk(s) && t == Entered(s, i) && !i.inTried
    ensures TriedIds(t) == TriedIds(s) && NewIds(t) == NewIds(s) + {s.idCount} && s.idCount !in NewIds(s)
  {
    forall id ensures id in TriedIds(t) <==> id in TriedIds(s) {}
    forall id ensures id in NewIds(t) <==> id in NewIds(s) + {s.idCount} {}
  }

  lemma EnterTriedIds(s: State, i: AddrInfo, t: State)
    requires IdsOk(s) && t == Entered(s, i) && i.inTried
    ensures TriedIds(t) == TriedIds(s) + {s.idCount} && NewIds(t) == NewIds(s) && s.idCount !in TriedIds(s)
  {
    forall id ensures id in TriedIds(t) <==> id in TriedIds(s) + {s.idCount} {}
    forall id ensures id in NewIds(t) <==> id in NewIds(s) {}
  }

  /** Only the counters differ. */
  lemma Recounted(p: Params, s: State, t: State, zero: set<int>)
    requires p.Valid() && t == s.(nNew := t.nNew, nTried := t.nTried)
    requires IdsOk(s) && RandomOk(s) && NewOk(p, s) && TriedOk(p, s) && RefsOk(s, zero)
    requires t.nTried == |TriedIds(s)| && t.nNew == |NewIds(s)| && |t.rnd| == t.nTried + t.nNew
    ensures Unindexed(p, t, zero, {})
  {
    RefsSame(s, t);
    assert TriedIds(s) == TriedIds(t) && NewIds(s) == NewIds(t);
  }

  lemma EnterNew(p: Params, s: State, i: AddrInfo, e: State, t: State, zero: set<int>)
    requires p.Valid() && Unindexed(p, s, zero, {}) && i.refCount == 0 && !i.inTried
    requires e == Entered(s, i) && t == e.(nNew := s.nNew + 1)
    ensures Unindexed(p, t, zero + {s.idCount}, {})
  {
    EnterIndexes(p, s, i, e);
    EnterRandom(s, i, e);
    EnterRefs(p, s, i, e, zero);
    EnterNewIds(s, i, e);
    assert TriedOk(p, e) by { assert s.idCount !in s.info; }
    Recounted(p, e, t, zero + {s.idCount});
  }

  lemma EnterTriedTable(p: Params, s: State, i: AddrInfo, sl: Slot, t: State)
    requires p.Valid() && IdsOk(s) && TriedOk(p, s) && i.inTried
    requires sl == p.TriedSlot(s.key, i.svc) && sl !in s.triedSlots
    requires t == Entered(s, i).(triedSlots := s.triedSlots[sl := s.idCount])
    ensures TriedOk(p, t)
  {
    assert s.idCount !in s.info;
  }

  lemma EnterTried(p: Params, s: State, i: AddrInfo, sl: Slot, e: State, t: State, zero: set<int>)
    requires p.Valid() && Unindexed(p, s, zero, {}) && i.refCount == 0 && i.inTried
    requires sl == p.TriedSlot(s.key, i.svc) && sl !in s.triedSlots
    requires e == Entered(s, i) && t == e.(triedSlots := s.triedSlots[sl := s.idCount], nTried := s.nTried + 1)
    ensures Unindexed(p, t, zero, {})
  {
    EnterIndexes(p, s, i, e);
    EnterRandom(s, i, e);
    EnterRefs(p, s, i, e, zero);
    EnterTriedIds(s, i, e);
    var u := e.(triedSlots := s.triedSlots[sl := s.idCount]);
    EnterTriedTable(p, s, i, sl, u);
    RandomSame(e, u);
    RefsSame(e, u);
    assert TriedIds(u) == TriedIds(e) && NewIds(u) == NewIds(e);
    Recounted(p, u, t, zero);
  }

  // ---------------------------------------------------------------------
  // The stages of loading
  // ---------------------------------------------------------------------

  /** The ids that are in no bucket. */
  ghost function Zero(s: State): set<int> {
    set id | id in s.info && !s.info[id].inTried && s.info[id].refCount == 0
  }

  lemma ZeroIs(s: State, zero: set<int>)
    requires RefsOk(s, zero)
    ensures zero == Zero(s)
  {
    forall id ensures id in zero <==> id in Zero(s) {}
  }

  lemma ReadNewUnindexed(p: Params, f: Saved, s: State, r: Record, t: State, zero: set<int>)
    requires p.Valid() && Unindexed(p, s, zero, {})
    requires t == ReadNew(p, f, s, s.idCount, r).(idCount := s.idCount + 1, nNew := s.nNew + 1)
    ensures Unindexed(p, t, Zero(t), {})
  {
    var n, i := s.idCount, InfoOf(r, 0, false, |s.rnd|);
    var e := Entered(s, i);
    var u := e.(nNew := s.nNew + 1);
    EnterNew(p, s, i, e, u, zero);
    var sl := p.NewSlot(s.key, r.svc, r.source);
    if !Usable(p, f) && sl !in s.newSlots {
      assert t.info == u.info[n := u.info[n].(refCount := 1)];
      assert t == Link(u, sl, n, 1);
      LinkUnindexed(p, u, sl, n, t, zero + {n}, {});
      ZeroIs(t, zero + {n} - {n});
    } else {
      assert t == u;
      ZeroIs(t, zero + {n});
    }
  }

  /** The tables at stage `n`, with the counters of what has been read. */
  function Counted(s: State, idCount: int, nNew: int, nTried: int): State {
    s.(idCount := idCount, nNew := nNew, nTried := nTried)
  }

  lemma StartUnindexed(p: Params, c: State)
    requires p.Valid() && c == Init(c.key)
    ensures Unindexed(p, c, Zero(c), {})
  {
    assert Refs(c, 0) == {} && TriedIds(c) == {} && NewIds(c) == {} && Zero(c) == {};
  }

  lemma {:induction false} LoadNewFields(p: Params, f: Saved, n: nat, s: State)
    requires p.Valid() && n <= |f.newInfos| && s == LoadNew(p, f, n)
    ensures s.key == f.key && s.nNew == f.nNew && s.nTried == f.nTried
  {
    if n > 0 { LoadNewFields(p, f, n - 1, LoadNew(p, f, n - 1)); }
  }

  lemma StartCounted(p: Params, f: Saved, d: State)
    requires p.Valid() && d == Counted(LoadNew(p, f, 0), 0, 0, 0)
    ensures Unindexed(p, d, Zero(d), {})
  {
    assert d == Init(f.key);
    StartUnindexed(p, d);
  }

  lemma {:induction false} LoadNewUnindexed(p: Params, f: Saved, n: nat, s: State, c: State)
    requires p.Valid() && f.nNew <= |f.newInfos| && f.nTried <= |f.triedInfos| && n <= f.nNew
    requires s == LoadNew(p, f, n) && c == Counted(s, n, n, 0)
    ensures Unindexed(p, c, Zero(c), {})
  {
    if n == 0 {
      StartCounted(p, f, c);
    } else {
      var b := LoadNew(p, f, n - 1);
      var d := Counted(b, n - 1, n - 1, 0);
      LoadNewUnindexed(p, f, n - 1, b, d);
      LoadNewFields(p, f, n - 1, b);
      CountedNew(p, f, b, n - 1, d, c);
    }
  }

  lemma CountedNew(p: Params, f: Saved, s: State, n: nat, d: State, c: State)
    requires p.Valid() && n < f.nNew <= |f.newInfos| && f.nTried <= |f.triedInfos|
    requires d == Counted(s, n, n, 0) && Unindexed(p, d, Zero(d), {})
    requires c == Counted(ReadNew(p, f, s, n, f.newInfos[n]), n + 1, n + 1, 0)
    ensures Unindexed(p, c, Zero(c), {})
  {
    var r := f.newInfos[n];
    assert c == ReadNew(p, f, d, n, r).(idCount := n + 1, nNew := n + 1);
    ReadNewUnindexed(p, f, d, r, c, Zero(d));
  }

  lemma ReadTriedUnindexed(p: Params, s: State, r: Record, t: State)
    requires p.Valid() && Unindexed(p, s, Zero(s), {}) && p.TriedSlot(s.key, r.svc) !in s.triedSlots
    requires t == ReadTried(p, s, r).(nTried := s.nTried + 1)
    ensures Unindexed(p, t, Zero(t), {})
  {
    var i, sl := InfoOf(r, 0, true, |s.rnd|), p.TriedSlot(s.key, r.svc);
    EnterTried(p, s, i, sl, Entered(s, i), t, Zero(s));
    ZeroIs(t, Zero(s));
  }

  lemma {:induction false} LoadTriedFields(p: Params, f: Saved, n: nat, s: State)
    requires p.Valid() && f.nNew <= |f.newInfos| && n <= |f.triedInfos| && s == LoadTried(p, f, n)
    ensures s.key == f.key && s.nNew == f.nNew
  {
    if n == 0 {
      LoadNewFields(p, f, f.nNew, LoadNew(p, f, f.nNew));
    } else {
      LoadTriedFields(p, f, n - 1, LoadTried(p, f, n - 1));
    }
  }

  /** What is still to be read is left out of the count of tried entries. */
  function Sofar(f: Saved, s: State, n: nat): State {
    s.(nTried := s.nTried - (f.nTried - n))
  }

  lemma LoadNewAll(p: Params, f: Saved, c: State)
    requires p.Valid() && f.nNew <= |f.newInfos| && f.nTried <= |f.triedInfos|
    requires c == Sofar(f, LoadTried(p, f, 0), 0)
    ensures Unindexed(p, c, Zero(c), {})
  {
    var b := LoadNew(p, f, f.nNew);
    LoadNewFields(p, f, f.nNew, b);
    assert c == Counted(b, f.nNew, f.nNew, 0);
    LoadNewUnindexed(p, f, f.nNew, b, c);
  }

  /** The tables after `n` tried entries are consistent, but for the count of those to come. */
  ghost predicate SofarOk(p: Params, f: Saved, n: nat)
    requires p.Valid() && f.nNew <= |f.newInfos| && n <= f.nTried <= |f.triedInfos|
  {
    var c := Sofar(f, LoadTried(p, f, n), n);
    Unindexed(p, c, Zero(c), {})
  }

  lemma SofarNext(p: Params, f: Saved, n: nat)
    requires p.Valid() && n < f.nTried <= |f.triedInfos| && f.nNew <= |f.newInfos| && SofarOk(p, f, n)
    ensures SofarOk(p, f, n + 1)
  {
    var s, t := LoadTried(p, f, n), LoadTried(p, f, n + 1);
    LoadTriedFields(p, f, n, s);
    SofarTried(p, f, s, n, Sofar(f, s, n), Sofar(f, t, n + 1));
  }

  lemma {:induction false} SofarAll(p: Params, f: Saved, n: nat)
    requires p.Valid() && f.nNew <= |f.newInfos| && n <= f.nTried <= |f.triedInfos|
    ensures SofarOk(p, f, n)
  {
    if n == 0 {
      LoadNewAll(p, f, Sofar(f, LoadTried(p, f, n), n));
    } else {
      SofarAll(p, f, n - 1);
      SofarNext(p, f, n - 1);
    }
  }

  lemma LoadTriedUnindexed(p: Params, f: Saved, n: nat, s: State, c: State)
    requires p.Valid() && f.nNew <= |f.newInfos| && f.nTried <= |f.triedInfos| && n <= f.nTried
    requires s == LoadTried(p, f, n) && c == Sofar(f, s, n)
    ensures Unindexed(p, c, Zero(c), {})
  {
    SofarAll(p, f, n);
  }

  lemma SofarTried(p: Params, f: Saved, s: State, n: nat, d: State, c: State)
    requires p.Valid() && n < f.nTried <= |f.triedInfos| && f.nNew <= |f.newInfos|
    requires d == Sofar(f, s, n) && Unindexed(p, d, Zero(d), {})
    requires c == Sofar(f, ReadTried(p, s, f.triedInfos[n]), n + 1)
    ensures Unindexed(p, c, Zero(c), {})
  {
    var r := f.triedInfos[n];
    if p.TriedSlot(s.key, r.svc) in s.triedSlots {
      assert c == d;
    } else {
      assert c == ReadTried(p, d, r).(nTried := d.nTried + 1);
      ReadTriedUnindexed(p, d, r, c);
    }
  }

  /** The state between two numbers of the bucket lists. */
  ghost predicate Linking(p: Params, f: Saved, s: State)
    requires p.Valid()
  {
    && Unindexed(p, s, Zero(s), {})
    && (forall id :: 0 <= id < f.nNew && id in s.info ==> !s.info[id].inTried)
  }

  lemma ReadIndexUnindexed(p: Params, f: Saved, s: State, bucket: int, index: int, t: State)
    requires p.Valid() && Linking(p, f, s) && (Usable(p, f) ==> 0 <= bucket < p.newBuckets)
    requires t == ReadIndex(p, f, s, bucket, index)
    ensures Linking(p, f, t) && t.key == s.key
  {
    if t != s {
      var sl := Slot(bucket, p.Pos(s.key, s.info[index].svc, true, bucket));
      LinkUnindexed(p, s, sl, index, t, Zero(s), {});
      ZeroIs(t, Zero(s) - {index});
    }
  }

  lemma {:induction false} LoadBucketUnindexed(p: Params, f: Saved, s: State, bucket: int, list: seq<int>, t: State)
    requires p.Valid() && Linking(p, f, s) && (Usable(p, f) ==> 0 <= bucket < p.newBuckets)
    requires t == LoadBucket(p, f, s, bucket, list)
    ensures Linking(p, f, t) && t.key == s.key
    decreases |list|
  {
    if list != [] {
      var u := LoadBucket(p, f, s, bucket, list[..|list| - 1]);
      LoadBucketUnindexed(p, f, s, bucket, list[..|list| - 1], u);
      ReadIndexUnindexed(p, f, u, bucket, list[|list| - 1], t);
    }
  }

  lemma {:induction false} LoadNewUntried(p: Params, f: Saved, n: nat, s: State)
    requires p.Valid() && n <= |f.newInfos| && s == LoadNew(p, f, n)
    ensures forall id :: 0 <= id < n ==> id in s.info && !s.info[id].inTried
  {
    LoadNewNumbered(p, f, n, s);
    if n > 0 {
      LoadNewNumbered(p, f, n - 1, LoadNew(p, f, n - 1));
      LoadNewUntried(p, f, n - 1, LoadNew(p, f, n - 1));
    }
  }

  lemma {:induction false} LoadTriedUntried(p: Params, f: Saved, n: nat, s: State)
    requires p.Valid() && f.nNew <= |f.newInfos| && n <= |f.triedInfos| && s == LoadTried(p, f, n)
    ensures f.nNew <= s.idCount && forall id :: 0 <= id < f.nNew ==> id in s.info && !s.info[id].inTried
  {
    LoadTriedNumbered(p, f, n, s);
    if n == 0 {
      LoadNewUntried(p, f, f.nNew, LoadNew(p, f, f.nNew));
    } else {
      LoadTriedUntried(p, f, n - 1, LoadTried(p, f, n - 1));
    }
  }

  lemma {:induction false} LoadBucketsUnindexed(p: Params, f: Saved, n: nat, s: State)
    requires p.Valid() && f.nNew <= |f.newInfos| && f.nTried <= |f.triedInfos| && n <= |f.buckets|
    requires n <= Max(0, BucketCount(f)) && s == LoadBuckets(p, f, n)
    ensures Linking(p, f, s) && s.key == f.key
  {
    if n == 0 {
      LoadTriedFields(p, f, f.nTried, s);
      LoadTriedUntried(p, f, f.nTried, s);
      LoadTriedUnindexed(p, f, f.nTried, s, s);
    } else {
      var b := LoadBuckets(p, f, n - 1);
      LoadBucketsUnindexed(p, f, n - 1, b);
      LoadBucketUnindexed(p, f, b, n - 1, f.buckets[n - 1], s);
    }
  }

  // ---------------------------------------------------------------------
  // Pruning
  // ---------------------------------------------------------------------

  /** What pruning the ids of `gone` leaves. */
  ghost predicate Pruned(s: State, t: State, gone: set<int>) {
    && t.info.Keys == s.info.Keys - gone && SameButPos(t, s)
    && t.newSlots == s.newSlots && t.triedSlots == s.triedSlots && t.key == s.key
  }

  ghost function Below(ids: set<int>, n: int): set<int> {
    set id | id in ids && id < n
  }

  lemma BelowNext(zero: set<int>, id: nat)
    requires forall x :: x in zero ==> x >= 0
    ensures Below(zero, 0) == {}
    ensures id in zero ==> Below(zero, id + 1) == Below(zero, id) + {id} && zero - Below(zero, id + 1) == zero - Below(zero, id) - {id}
    ensures id !in zero ==> Below(zero, id + 1) == Below(zero, id)
  {
  }

  lemma PruneUnindexed(p: Params, s: State, n: nat, t: State, zero: set<int>)
    requires p.Valid() && Unindexed(p, s, zero, {}) && t == Prune(s, n)
    ensures Unindexed(p, t, zero - Below(zero, n), {}) && Pruned(s, t, Below(zero, n))
  {
    PruneNone(p, s, zero);
    var u, k := s, 0;
    while k < n
      invariant 0 <= k <= n && RandomOk(u) && u == Prune(s, k)
      invariant Unindexed(p, u, zero - Below(zero, k), {}) && Pruned(s, u, Below(zero, k))
    {
      PruneOne(p, s, k, u, PruneId(u, k), zero);
      u := PruneId(u, k);
      k := k + 1;
    }
  }

  lemma PruneNone(p: Params, s: State, zero: set<int>)
    requires p.Valid() && Unindexed(p, s, zero, {})
    ensures Unindexed(p, s, zero - Below(zero, 0), {}) && Pruned(s, s, Below(zero, 0))
  {
    BelowNext(zero, 0);
    assert zero - Below(zero, 0) == zero;
  }

  lemma PruneOne(p: Params, s: State, id: nat, u: State, t: State, zero: set<int>)
    requires p.Valid() && IdsOk(s) && RefsOk(s, zero)
    requires Unindexed(p, u, zero - Below(zero, id), {}) && Pruned(s, u, Below(zero, id)) && t == PruneId(u, id)
    ensures Unindexed(p, t, zero - Below(zero, id + 1), {}) && Pruned(s, t, Below(zero, id + 1))
  {
    BelowNext(zero, id);
    if id in zero {
      DeleteUnindexed(p, u, id, t, zero - Below(zero, id), {});
      DeletedPruned(s, u, t, id, Below(zero, id));
    } else {
      assert id !in zero - Below(zero, id);
      assert t == u;
    }
  }

  lemma DeletedPruned(s: State, u: State, t: State, id: int, gone: set<int>)
    requires Pruned(s, u, gone) && Deleted(u, t, id)
    ensures Pruned(s, t, gone + {id})
  {
    assert s.info.Keys - gone - {id} == s.info.Keys - (gone + {id});
  }

  // ---------------------------------------------------------------------
  // Times
  // ---------------------------------------------------------------------

  /** The recorded times are those of an address manager. */
  ghost predicate TimesRecorded(f: Saved) {
    && (forall i :: 0 <= i < |f.newInfos| ==> 0 <= f.newInfos[i].lastSuccess)
    && (forall i :: 0 <= i < |f.triedInfos| ==> 0 < f.triedInfos[i].lastSuccess)
  }

  lemma {:induction false} LoadNewTimes(p: Params, f: Saved, n: nat, s: State)
    requires p.Valid() && n <= |f.newInfos| && TimesRecorded(f) && s == LoadNew(p, f, n)
    ensures TimesOk(s)
  {
    if n > 0 { LoadNewTimes(p, f, n - 1, LoadNew(p, f, n - 1)); }
  }

  lemma {:induction false} LoadTriedTimes(p: Params, f: Saved, n: nat, s: State)
    requires p.Valid() && f.nNew <= |f.newInfos| && n <= |f.triedInfos| && TimesRecorded(f) && s == LoadTried(p, f, n)
    ensures TimesOk(s)
  {
    if n == 0 {
      LoadNewTimes(p, f, f.nNew, LoadNew(p, f, f.nNew));
    } else {
      LoadTriedTimes(p, f, n - 1, LoadTried(p, f, n - 1));
    }
  }

  lemma {:induction false} LoadBucketTimes(p: Params, f: Saved, s: State, bucket: int, list: seq<int>, t: State)
    requires p.Valid() && TimesOk(s)
    requires t == LoadBucket(p, f, s, bucket, list)
    ensures TimesOk(t)
    decreases |list|
  {
    if list != [] {
      LoadBucketTimes(p, f, s, bucket, list[..|list| - 1], LoadBucket(p, f, s, bucket, list[..|list| - 1]));
    }
  }

  lemma {:induction false} LoadBucketsTimes(p: Params, f: Saved, n: nat, s: State)
    requires p.Valid() && f.nNew <= |f.newInfos| && f.nTried <= |f.triedInfos| && n <= |f.buckets| && TimesRecorded(f)
    requires s == LoadBuckets(p, f, n)
    ensures TimesOk(s)
  {
    if n == 0 {
      LoadTriedTimes(p, f, f.nTried, s);
    } else {
      var b := LoadBuckets(p, f, n - 1);
      LoadBucketsTimes(p, f, n - 1, b);
      LoadBucketTimes(p, f, b, n - 1, f.buckets[n - 1], s);
    }
  }

  lemma PrunedTimes(s: State, t: State)
    requires TimesOk(s) && SameButPos(t, s)
    ensures TimesOk(t)
  {
  }

  // ---------------------------------------------------------------------
  // The address index
  // ---------------------------------------------------------------------

  /** Every address of an entry is in the index, and every address in the index leads to an entry that has it. */
  ghost predicate Leads(s: State) {
    && (forall id :: id in s.info ==> s.info[id].svc.ip in s.addr)
    && (forall a :: a in s.addr ==> s.addr[a] in s.info && s.info[s.addr[a]].svc.ip == a)
  }

  lemma LeadsNext(s: State, n: int, i: AddrInfo, t: State)
    requires Leads(s) && n !in s.info && t.info == s.info[n := i] && t.addr == s.addr[i.svc.ip := n]
    ensures Leads(t)
  {
  }

  lemma {:induction false} LoadNewLeads(p: Params, f: Saved, n: nat, s: State)
    requires p.Valid() && n <= |f.newInfos| && s == LoadNew(p, f, n)
    ensures Leads(s)
  {
    if n > 0 {
      var b := LoadNew(p, f, n - 1);
      LoadNewLeads(p, f, n - 1, b);
      LoadNewNumbered(p, f, n - 1, b);
      LeadsNext(b, n - 1, s.info[n - 1], s);
    }
  }

  lemma {:induction false} LoadTriedLeads(p: Params, f: Saved, n: nat, s: State)
    requires p.Valid() && f.nNew <= |f.newInfos| && n <= |f.triedInfos| && s == LoadTried(p, f, n)
    ensures Leads(s)
  {
    if n == 0 {
      LoadNewLeads(p, f, f.nNew, LoadNew(p, f, f.nNew));
    } else {
      var b := LoadTried(p, f, n - 1);
      LoadTriedLeads(p, f, n - 1, b);
      LoadTriedNumbered(p, f, n - 1, b);
      if p.TriedSlot(b.key, f.triedInfos[n - 1].svc) !in b.triedSlots {
        LeadsNext(b, b.idCount, s.info[b.idCount], s);
      }
    }
  }

  /** Reading bucket lists changes no address. */
  ghost predicate SameAddresses(s: State, t: State) {
    t.addr == s.addr && t.info.Keys == s.info.Keys && forall id :: id in s.info ==> t.info[id].svc == s.info[id].svc
  }

  lemma LeadsSame(s: State, t: State)
    requires Leads(s) && SameAddresses(s, t)
    ensures Leads(t)
  {
    forall id | id in t.info ensures t.info[id].svc.ip in t.addr { assert id in s.info; }
    forall a | a in t.addr ensures t.addr[a] in t.info && t.info[t.addr[a]].svc.ip == a {
      var id := s.addr[a];
      assert id in s.info && t.info[id].svc == s.info[id].svc;
    }
  }

  lemma {:induction false} LoadBucketAddresses(p: Params, f: Saved, s: State, bucket: int, list: seq<int>, t: State)
    requires p.Valid() && t == LoadBucket(p, f, s, bucket, list)
    ensures SameAddresses(s, t)
    decreases |list|
  {
    if list != [] {
      LoadBucketAddresses(p, f, s, bucket, list[..|list| - 1], LoadBucket(p, f, s, bucket, list[..|list| - 1]));
    }
  }

  lemma {:induction false} LoadBucketsAddresses(p: Params, f: Saved, n: nat, s: State)
    requires p.Valid() && f.nNew <= |f.newInfos| && f.nTried <= |f.triedInfos| && n <= |f.buckets|
    requires s == LoadBuckets(p, f, n)
    ensures SameAddresses(LoadTried(p, f, f.nTried), s)
  {
    if n > 0 {
      var b := LoadBuckets(p, f, n - 1);
      LoadBucketsAddresses(p, f, n - 1, b);
      LoadBucketAddresses(p, f, b, n - 1, f.buckets[n - 1], s);
    }
  }

  // ---------------------------------------------------------------------
  // What pruning does to the index
  // ---------------------------------------------------------------------

  /** Some entries are gone, and their addresses with them, whoever else has these. */
  ghost predicate Dropped(s: State, t: State, gone: set<int>) {
    && SameButPos(t, s) && t.info.Keys == s.info.Keys - gone
    && (forall id :: id in gone ==> id in s.info && s.info[id].svc.ip !in t.addr)
    && (forall a :: a in t.addr ==> a in s.addr && t.addr[a] == s.addr[a])
    && (forall a :: a in s.addr && a !in t.addr ==> HadAddress(s, gone, a))
  }

  ghost predicate HadAddress(s: State, gone: set<int>, a: NetAddr) {
    exists id :: id in gone && id in s.info && s.info[id].svc.ip == a
  }

  lemma DroppedNext(s: State, u: State, gone: set<int>, id: int, t: State)
    requires Dropped(s, u, gone) && id in s.info && SameButPos(t, u) && id in u.info && t.info.Keys == u.info.Keys - {id}
    requires t.addr == u.addr - {u.info[id].svc.ip}
    ensures Dropped(s, t, gone + {id})
  {
    assert u.info[id].svc == s.info[id].svc;
    forall a | a in s.addr && a !in t.addr ensures HadAddress(s, gone + {id}, a) {
      if a in u.addr {
        assert s.info[id].svc.ip == a;
      } else {
        var x :| x in gone && x in s.info && s.info[x].svc.ip == a;
        assert x in gone + {id};
      }
    }
  }

  lemma DropZero(s: State, u: State, k: nat, w: State)
    requires (forall id :: id in s.info ==> id >= 0) && RandomOk(u) && Dropped(s, u, Below(Zero(s), k)) && w == PruneId(u, k)
    ensures Dropped(s, w, Below(Zero(s), k + 1))
  {
    BelowNext(Zero(s), k);
    PruneIdAddresses(u, k, w);
    ZeroKept(s, u, k);
    if k in Zero(s) {
      DroppedNext(s, u, Below(Zero(s), k), k, w);
    }
  }

  /** Pruning takes the address of every entry that it deletes out of the index. */
  lemma PruneAddresses(s: State, n: nat, t: State)
    requires RandomOk(s) && (forall id :: id in s.info ==> id >= 0) && t == Prune(s, n)
    ensures Dropped(s, t, Below(Zero(s), n))
  {
    DropNone(s);
    var u, k := s, 0;
    while k < n
      invariant 0 <= k <= n && RandomOk(u) && u == Prune(s, k)
      invariant Dropped(s, u, Below(Zero(s), k))
    {
      DropZero(s, u, k, PruneId(u, k));
      u := PruneId(u, k);
      k := k + 1;
    }
  }

  lemma DropNone(s: State)
    requires forall id :: id in s.info ==> id >= 0
    ensures Dropped(s, s, Below(Zero(s), 0))
  {
    BelowNext(Zero(s), 0);
  }

  lemma ZeroKept(s: State, u: State, n: int)
    requires Dropped(s, u, Below(Zero(s), n))
    ensures n in Zero(u) <==> n in Zero(s)
  {
  }

  lemma PruneIdAddresses(s: State, id: int, t: State)
    requires RandomOk(s) && t == PruneId(s, id)
    ensures SameButPos(t, s) && t.info.Keys == s.info.Keys - (if id in Zero(s) then {id} else {})
    ensures t.addr == s.addr - (if id in Zero(s) then {s.info[id].svc.ip} else {})
    ensures id !in Zero(s) ==> t == s
  {
    if id in Zero(s) {
      SwapRandomOk(s, s.info[id].randomPos, |s.rnd| - 1, SwapRandom(s, s.info[id].randomPos, |s.rnd| - 1));
    }
  }

  /** All entries that share their address with another are in no bucket. */
  ghost predicate RepeatsPruned(s: State) {
    forall i, j :: i in s.info && j in s.info && i != j && s.info[i].svc.ip == s.info[j].svc.ip ==> i in Zero(s)
  }

  lemma RepeatsIndexed(s: State, t: State)
    requires Leads(s) && Dropped(s, t, Zero(s)) && RepeatsPruned(s)
    ensures AddrOk(t)
  {
    forall id | id in t.info ensures t.info[id].svc.ip in t.addr && t.addr[t.info[id].svc.ip] == id {
      var a := s.info[id].svc.ip;
      assert t.info[id].svc.ip == a;
      assert s.addr[a] == id;
      assert !HadAddress(s, Zero(s), a);
    }
  }

  /** Of two entries with one address, not both pruned, the index has one, or neither. */
  lemma RepeatedAddress(s: State, t: State, i: int, j: int)
    requires Dropped(s, t, Zero(s)) && i in s.info && j in s.info && i != j && s.info[i].svc.ip == s.info[j].svc.ip
    requires i !in Zero(s)
    ensures !AddrOk(t)
  {
    assert i in t.info && t.info[i].svc == s.info[i].svc;
    if j !in Zero(s) {
      assert j in t.info && t.info[j].svc == s.info[j].svc;
    }
  }

  // ---------------------------------------------------------------------
  // Loading a file
  // ---------------------------------------------------------------------

  /** Every accepted file, whatever its version, bucket count and bucket lists, is loaded into tables that
      are consistent but for the address index, and exactly the entries that ended up in no bucket are pruned. */
  lemma LoadTables(p: Params, f: Saved, s: State, t: State)
    requires p.Valid() && Accepted(p, f)
    requires s == LoadBuckets(p, f, Max(0, BucketCount(f))) && t == Load(p, f)
    ensures Unindexed(p, t, {}, {}) && t.key == f.key && Pruned(s, t, Zero(s))
    ensures TimesRecorded(f) ==> TimesOk(t)
  {
    LoadBucketsUnindexed(p, f, Max(0, BucketCount(f)), s);
    PruneUnindexed(p, s, s.idCount, t, Zero(s));
    assert Below(Zero(s), s.idCount) == Zero(s);
    assert Zero(s) - Zero(s) == {};
    if TimesRecorded(f) {
      LoadBucketsTimes(p, f, Max(0, BucketCount(f)), s);
      PrunedTimes(s, t);
    }
  }

  lemma LoadIndex(p: Params, f: Saved, s: State, t: State)
    requires p.Valid() && Accepted(p, f)
    requires s == LoadBuckets(p, f, Max(0, BucketCount(f))) && t == Load(p, f)
    ensures Leads(s) && Dropped(s, t, Zero(s))
  {
    var b := LoadTried(p, f, f.nTried);
    LoadTriedLeads(p, f, f.nTried, b);
    LoadBucketsAddresses(p, f, Max(0, BucketCount(f)), s);
    LeadsSame(b, s);
    LoadBucketsNumbered(p, f, Max(0, BucketCount(f)), s);
    PruneAddresses(s, s.idCount, t);
    assert Below(Zero(s), s.idCount) == Zero(s);
  }

  /** The loaded tables are consistent exactly when all entries that share an address are pruned. */
  lemma LoadInv(p: Params, f: Saved, s: State, t: State)
    requires p.Valid() && Accepted(p, f)
    requires s == LoadBuckets(p, f, Max(0, BucketCount(f))) && t == Load(p, f)
    ensures Core(p, t, {}, {}) <==> RepeatsPruned(s)
    ensures TimesRecorded(f) && f.key != 0 ==> (Inv(p, t) <==> RepeatsPruned(s))
  {
    LoadTables(p, f, s, t);
    LoadIndex(p, f, s, t);
    if RepeatsPruned(s) {
      RepeatsIndexed(s, t);
    } else {
      var i, j :| i in s.info && j in s.info && i != j && s.info[i].svc.ip == s.info[j].svc.ip && i !in Zero(s);
      RepeatedAddress(s, t, i, j);
    }
  }

  // ---------------------------------------------------------------------
  // Files with distinct addresses
  // ---------------------------------------------------------------------

  ghost predicate From(a: NetAddr, rs: seq<Record>, n: int)
    requires n <= |rs|
  {
    exists i :: 0 <= i < n && rs[i].svc.ip == a
  }

  /** No network address is recorded twice. */
  ghost predicate Distinct(f: Saved)
    requires f.nNew <= |f.newInfos| && f.nTried <= |f.triedInfos|
  {
    && (forall i :: 0 <= i < f.nNew ==> !From(f.newInfos[i].svc.ip, f.newInfos, i))
    && (forall i :: 0 <= i < f.nTried ==>
        !From(f.triedInfos[i].svc.ip, f.newInfos, f.nNew) && !From(f.triedInfos[i].svc.ip, f.triedInfos, i))
  }

  /** No two entries share an address. */
  ghost predicate Unrepeated(s: State) {
    forall i, j :: i in s.info && j in s.info && i != j ==> s.info[i].svc.ip != s.info[j].svc.ip
  }

  lemma UnrepeatedNext(s: State, n: int, i: AddrInfo, t: State)
    requires Unrepeated(s) && n !in s.info && t.info == s.info[n := i]
    requires forall id :: id in s.info ==> s.info[id].svc.ip != i.svc.ip
    ensures Unrepeated(t)
  {
  }

  lemma {:induction false} LoadNewDistinct(p: Params, f: Saved, n: nat, s: State)
    requires p.Valid() && f.nNew <= |f.newInfos| && f.nTried <= |f.triedInfos| && Distinct(f) && n <= f.nNew
    requires s == LoadNew(p, f, n)
    ensures Unrepeated(s) && forall id :: id in s.info ==> From(s.info[id].svc.ip, f.newInfos, n)
  {
    if n > 0 {
      var b, r := LoadNew(p, f, n - 1), f.newInfos[n - 1];
      LoadNewDistinct(p, f, n - 1, b);
      LoadNewNumbered(p, f, n - 1, b);
      UnrepeatedNext(b, n - 1, s.info[n - 1], s);
      forall id | id in s.info ensures From(s.info[id].svc.ip, f.newInfos, n) {
        if id != n - 1 { assert From(b.info[id].svc.ip, f.newInfos, n - 1); }
      }
    }
  }

  ghost predicate FromFile(f: Saved, n: nat, a: NetAddr)
    requires f.nNew <= |f.newInfos| && n <= |f.triedInfos|
  {
    From(a, f.newInfos, f.nNew) || From(a, f.triedInfos, n)
  }

  lemma {:induction false} LoadTriedDistinct(p: Params, f: Saved, n: nat, s: State)
    requires p.Valid() && f.nNew <= |f.newInfos| && f.nTried <= |f.triedInfos| && Distinct(f) && n <= f.nTried
    requires s == LoadTried(p, f, n)
    ensures Unrepeated(s) && forall id :: id in s.info ==> FromFile(f, n, s.info[id].svc.ip)
  {
    if n == 0 {
      LoadNewDistinct(p, f, f.nNew, LoadNew(p, f, f.nNew));
    } else {
      var b, r := LoadTried(p, f, n - 1), f.triedInfos[n - 1];
      LoadTriedDistinct(p, f, n - 1, b);
      LoadTriedNumbered(p, f, n - 1, b);
      forall id | id in s.info ensures FromFile(f, n, s.info[id].svc.ip) {
        if id in b.info { assert FromFile(f, n - 1, b.info[id].svc.ip); }
      }
      if p.TriedSlot(b.key, r.svc) !in b.triedSlots {
        UnrepeatedNext(b, b.idCount, s.info[b.idCount], s);
      }
    }
  }

  /** In particular a file with distinct addresses is loaded into consistent tables. */
  lemma DistinctLoads(p: Params, f: Saved, s: State)
    requires p.Valid() && Accepted(p, f) && Distinct(f) && s == LoadBuckets(p, f, Max(0, BucketCount(f)))
    ensures RepeatsPruned(s)
  {
    LoadTriedDistinct(p, f, f.nTried, LoadTried(p, f, f.nTried));
    LoadBucketsAddresses(p, f, Max(0, BucketCount(f)), s);
  }

  // ---------------------------------------------------------------------
  // A file with a repeated address
  // ---------------------------------------------------------------------

  /** A file with one new entry written twice; its bucket lists are used if `lists`. */
  function Twice(p: Params, key: nat, r: Record, lists: bool): Saved
    requires p.Valid()
  {
    Saved(1, KEY_SIZE, key, 2, 0, Flip(if lists then p.newBuckets else 0), [r, r], [],
          if lists then seq(p.newBuckets, _ => []) else [])
  }

  lemma {:induction false} EmptyLists(p: Params, f: Saved, n: nat)
    requires p.Valid() && f.nNew <= |f.newInfos| && f.nTried <= |f.triedInfos| && n <= |f.buckets|
    requires forall b :: 0 <= b < n ==> f.buckets[b] == []
    ensures LoadBuckets(p, f, n) == LoadTried(p, f, f.nTried)
  {
    if n > 0 { EmptyLists(p, f, n - 1); }
  }

  lemma TwiceRead(p: Params, key: nat, r: Record, lists: bool, f: Saved, s: State)
    requires p.Valid() && f == Twice(p, key, r, lists) && s == LoadTried(p, f, 0)
    ensures s.info.Keys == {0, 1} && s.addr.Keys == {r.svc.ip} && s.info[0].svc == s.info[1].svc == r.svc
    ensures Zero(s) == if lists then {0, 1} else {1}
  {
    FlipTwice(if lists then p.newBuckets else 0);
    var a, b := LoadNew(p, f, 1), LoadNew(p, f, 2);
    assert a == ReadNew(p, f, LoadNew(p, f, 0), 0, r);
    assert b == ReadNew(p, f, a, 1, r);
  }

  lemma TwiceAccepted(p: Params, key: nat, r: Record, lists: bool, f: Saved)
    requires p.Valid() && p.newBuckets * p.bucketSize >= 2 && f == Twice(p, key, r, lists)
    ensures Accepted(p, f) && LoadBuckets(p, f, Max(0, BucketCount(f))) == LoadTried(p, f, 0)
  {
    FlipTwice(if lists then p.newBuckets else 0);
    assert p.triedBuckets * p.bucketSize >= 0;
    EmptyLists(p, f, BucketCount(f));
  }

  /** Both are entered under their address. If the bucket lists are not used, the first is put into a bucket
      and the second finds its slot taken, so that pruning the second takes the address of the first away. If the
      lists are used and are empty, both are pruned. */
  lemma LoadTwice(p: Params, key: nat, r: Record, lists: bool, f: Saved)
    requires p.Valid() && p.newBuckets * p.bucketSize >= 2 && f == Twice(p, key, r, lists)
    ensures Accepted(p, f)
    ensures Load(p, f).addr == map[] && Load(p, f).info.Keys == if lists then {} else {0}
    ensures Core(p, Load(p, f), {}, {}) <==> lists
  {
    var s := LoadTried(p, f, 0);
    TwiceAccepted(p, key, r, lists, f);
    TwiceRead(p, key, r, lists, f, s);
    LoadIndex(p, f, s, Load(p, f));
    LoadInv(p, f, s, Load(p, f));
    assert 0 in s.info && 1 in s.info && s.info[0].svc.ip == s.info[1].svc.ip;
    assert 1 in Zero(s);
  }
}
