/** The address manager as the program has it: an object whose tables the operations update in place.
    Each method is proved against the function of the same name on the tables' values, and each
    assert of the program is proved where the program has it. */
module AddrManObject {
  import opened Common
  import opened AddrManState
  import opened AddrManProofs
  import opened AddrManRuns

  const EMPTY := -1

  /** The occupied slots of a grid of buckets. */
  ghost function Grid(a: array2<int>): map<Slot, int>
    reads a
  {
    map b: int, i: int | 0 <= b < a.Length0 && 0 <= i < a.Length1 && a[b, i] != EMPTY :: Slot(b, i) := a[b, i]
  }

  class AddrMan {
    const p: Params
    const vvNew: array2<int>
    const vvTried: array2<int>
    var nIdCount: int
    var mapInfo: map<int, AddrInfo>
    var mapAddr: map<NetAddr, int>
    var vRandom: seq<int>
    var nTried: int
    var nNew: int
    var nLastGood: int
    var nKey: nat

    ghost predicate Shape() {
      && p.Valid() && vvNew != vvTried
      && vvNew.Length0 == p.newBuckets && vvNew.Length1 == p.bucketSize
      && vvTried.Length0 == p.triedBuckets && vvTried.Length1 == p.bucketSize
    }

    ghost function View(): State
      reads this, vvNew, vvTried
    {
      State(nIdCount, mapInfo, mapAddr, vRandom, nTried, Grid(vvTried), nNew, Grid(vvNew), nLastGood, nKey)
    }

    constructor (p: Params, key: nat)
      requires p.Valid() && key != 0
      ensures Shape() && this.p == p && fresh(vvNew) && fresh(vvTried)
      ensures View() == Init(key) && Inv(p, View())
    {
      this.p := p;
      vvNew := new int[p.newBuckets, p.bucketSize]((_, _) => EMPTY);
      vvTried := new int[p.triedBuckets, p.bucketSize]((_, _) => EMPTY);
      nIdCount, mapInfo, mapAddr, vRandom, nTried, nNew, nLastGood, nKey := 0, map[], map[], [], 0, 0, 1, key;
      new;
      InitInv(p, key);
    }

    method SwapRandom(i: nat, j: nat)
      requires Shape() && RandomOk(View()) && i < |vRandom| && j < |vRandom|
      modifies this`mapInfo, this`vRandom
      ensures View() == AddrManState.SwapRandom(old(View()), i, j)
    {
      if i == j { return; }
      assert i < |vRandom| && j < |vRandom|;
      var id1, id2 := vRandom[i], vRandom[j];
      assert id1 in mapInfo;
      assert id2 in mapInfo;
      mapInfo := mapInfo[id1 := mapInfo[id1].(randomPos := j)];
      mapInfo := mapInfo[id2 := mapInfo[id2].(randomPos := i)];
      vRandom := vRandom[i := id2];
      vRandom := vRandom[j := id1];
      assert id1 != id2 by { assert old(View()).rnd[i] == id1 && old(View()).rnd[j] == id2; }
    }

    method Delete(id: int)
      requires Shape() && RandomOk(View()) && id in mapInfo && !mapInfo[id].inTried && mapInfo[id].refCount == 0
      modifies this`mapInfo, this`vRandom, this`mapAddr, this`nNew
      ensures View() == AddrManState.Delete(old(View()), id)
    {
      var info := mapInfo[id];
      SwapRandom(info.randomPos, |vRandom| - 1);
      vRandom := vRandom[..|vRandom| - 1];
      mapAddr := mapAddr - {info.svc.ip};
      mapInfo := mapInfo - {id};
      nNew := nNew - 1;
    }

    method ClearNew(bucket: int, pos: int, ghost zero: set<int>, ghost uncounted: set<int>)
      requires Shape() && Core(p, View(), zero, uncounted) && 0 <= bucket < p.newBuckets && 0 <= pos < p.bucketSize
      modifies this`mapInfo, this`vRandom, this`mapAddr, this`nNew, vvNew
      ensures View() == AddrManState.ClearNew(old(View()), Slot(bucket, pos))
    {
      if vvNew[bucket, pos] != EMPTY {
        ghost var s, sl := View(), Slot(bucket, pos);
        var id := vvNew[bucket, pos];
        ReleaseReady(p, s, sl, id, zero, uncounted);
        assert mapInfo[id].refCount > 0;
        mapInfo := WithRefs(mapInfo, id, mapInfo[id].refCount - 1);
        Put(vvNew, bucket, pos, EMPTY);
        assert View() == Release(s, sl, id);
        if mapInfo[id].refCount == 0 {
          Delete(id);
        }
      }
    }

    /** The entry has been taken out of the first `n` new buckets of `s`. */
    ghost predicate Unlinked(s: State, id: int, n: int)
      reads this, vvNew, vvTried
    {
      Shape() && id != EMPTY && nKey == s.key && id in s.info && UnlinkedTo(p, s, id, n, mapInfo, Grid(vvNew))
    }

    /** Takes an entry out of one new bucket, if it is at its position there. */
    method UnlinkFrom(bucket: int, id: int, ghost s: State)
      requires Unlinked(s, id, bucket) && 0 <= bucket < p.newBuckets
      modifies this`mapInfo, vvNew
      ensures Unlinked(s, id, bucket + 1)
    {
      var pos := p.Pos(nKey, mapInfo[id].svc, true, bucket);
      var found := vvNew[bucket, pos] == id;
      At(vvNew, bucket, pos);
      UnlinkStep(p, s, id, bucket, Slot(bucket, pos), mapInfo, Grid(vvNew), found);
      if found {
        mapInfo := WithRefs(mapInfo, id, mapInfo[id].refCount - 1);
        Put(vvNew, bucket, pos, EMPTY);
      }
    }

    /** Takes an entry out of all new buckets. */
    method UnlinkAll(id: int, ghost s: State)
      requires Unlinked(s, id, 0)
      modifies this`mapInfo, vvNew
      ensures Unlinked(s, id, p.newBuckets)
    {
      var bucket := 0;
      while bucket < p.newBuckets
        invariant bucket <= p.newBuckets
        invariant bucket >= 0
        invariant Unlinked(s, id, bucket)
      {
        UnlinkFrom(bucket, id, s);
        bucket := bucket + 1;
      }
    }

    /** Takes an entry out of all new buckets and of the count of new entries. */
    method Unlink(id: int)
      requires Shape() && id in mapInfo && id != EMPTY
      modifies this`mapInfo, this`nNew, vvNew
      ensures View() == AddrManState.Unlink(p, old(View()), id)
    {
      ghost var s := View();
      NoneUnlinked(p, s, id);
      UnlinkAll(id, s);
      nNew := nNew - 1;
      AllUnlinked(p, s, id, View());
    }

    /** Takes the entry in a tried slot out of the tried set. */
    method Untry(bucket: int, pos: int) returns (evict: int)
      requires Shape() && 0 <= bucket < p.triedBuckets && 0 <= pos < p.bucketSize
      requires vvTried[bucket, pos] != EMPTY && vvTried[bucket, pos] in mapInfo
      modifies this`mapInfo, this`nTried, vvTried
      ensures evict == old(vvTried[bucket, pos]) && View() == AddrManState.Untry(old(View()), Slot(bucket, pos))
    {
      evict := vvTried[bucket, pos];
      mapInfo := mapInfo[evict := mapInfo[evict].(inTried := false)];
      Put(vvTried, bucket, pos, EMPTY);
      nTried := nTried - 1;
    }

    /** Enters an entry into a new slot. */
    method Link(sl: Slot, id: int, refCount: int)
      requires Shape() && 0 <= sl.bucket < p.newBuckets && 0 <= sl.pos < p.bucketSize && id in mapInfo && id != EMPTY
      modifies this`mapInfo, vvNew
      ensures View() == AddrManState.Link(old(View()), sl, id, refCount)
    {
      mapInfo := WithRefs(mapInfo, id, refCount);
      Put(vvNew, sl.bucket, sl.pos, id);
    }

    /** Enters an entry into a tried slot. */
    method Promote(sl: Slot, id: int)
      requires Shape() && 0 <= sl.bucket < p.triedBuckets && 0 <= sl.pos < p.bucketSize && id in mapInfo && id != EMPTY
      modifies this`mapInfo, this`nTried, vvTried
      ensures View() == AddrManState.Promote(old(View()), sl, id)
    {
      Put(vvTried, sl.bucket, sl.pos, id);
      nTried := nTried + 1;
      mapInfo := mapInfo[id := mapInfo[id].(inTried := true)];
    }

    /** Takes the entry in a tried slot out of the tried set, and clears the new slot that its source selects. */
    method Dislodge(bucket: int, pos: int, ghost id: int) returns (evict: int, ns: Slot)
      requires Shape() && Core(p, View(), {id}, {id}) && 0 <= bucket < p.triedBuckets && 0 <= pos < p.bucketSize
      requires vvTried[bucket, pos] != EMPTY
      modifies this, vvNew, vvTried
      ensures evict == old(vvTried[bucket, pos]) && evict in old(mapInfo) && evict != EMPTY && evict in mapInfo
      ensures ns == HomeSlot(p, old(View()), evict) && ns !in Grid(vvNew)
      ensures View() == Unseat(p, old(View()), Slot(bucket, pos))
    {
      ghost var s, sl := View(), Slot(bucket, pos);
      At(vvTried, bucket, pos);
      evict := Untry(bucket, pos);
      ghost var u, both := View(), {id} + {evict};
      UntryCore(p, s, sl, u, {id}, {id});
      ns := p.NewSlot(nKey, mapInfo[evict].svc, mapInfo[evict].source);
      ClearNew(ns.bucket, ns.pos, both, both);
      CleanSlot(p, u, ns, evict, View(), both);
    }

    /** Moves the entry in a tried slot back to the new bucket that its source selects. */
    method Evict(bucket: int, pos: int, ghost id: int)
      requires Shape() && Core(p, View(), {id}, {id}) && 0 <= bucket < p.triedBuckets && 0 <= pos < p.bucketSize
      requires vvTried[bucket, pos] != EMPTY
      modifies this, vvNew, vvTried
      ensures View() == AddrManState.Evict(p, old(View()), Slot(bucket, pos))
    {
      var evict, ns := Dislodge(bucket, pos, id);
      assert vvNew[ns.bucket, ns.pos] == EMPTY;
      Link(ns, evict, 1);
      nNew := nNew + 1;
    }

    /** Makes sure that a tried slot is free. */
    method MakeRoom(ts: Slot, ghost id: int)
      requires Shape() && Core(p, View(), {id}, {id}) && 0 <= ts.bucket < p.triedBuckets && 0 <= ts.pos < p.bucketSize
      modifies this, vvNew, vvTried
      ensures View() == Vacate(p, old(View()), ts)
      ensures ts !in Grid(vvTried) && id in mapInfo
    {
      ghost var s := View();
      At(vvTried, ts.bucket, ts.pos);
      if vvTried[ts.bucket, ts.pos] != EMPTY {
        Evict(ts.bucket, ts.pos, id);
      }
      assert View() == Vacate(p, s, ts);
      Vacated(p, s, ts, id, View());
    }

    method MakeTried(id: int)
      requires Shape() && Core(p, View(), {}, {}) && id in mapInfo && !mapInfo[id].inTried
      modifies this, vvNew, vvTried
      ensures View() == AddrManState.MakeTried(p, old(View()), id)
    {
      ghost var s := View();
      Unlink(id);
      UnlinkCore(p, s, id, View());
      assert mapInfo[id].refCount == 0;
      var ts := p.TriedSlot(nKey, mapInfo[id].svc);
      MakeRoom(ts, id);
      assert vvTried[ts.bucket, ts.pos] == EMPTY;
      Promote(ts, id);
    }

    /** Whether a new bucket holds the entry. */
    method HeldIn(id: int, b: int) returns (held: bool)
      requires Shape() && id in mapInfo && id != EMPTY && 0 <= b < p.newBuckets
      ensures held <==> Slot(b, p.Pos(nKey, mapInfo[id].svc, true, b)) in FoundSlots(p, View(), id)
    {
      var pos := p.Pos(nKey, mapInfo[id].svc, true, b);
      At(vvNew, b, pos);
      held := vvNew[b, pos] == id;
    }

    /** Looks for a new bucket that holds the entry, starting at a random one. */
    method FindBucket(id: int, rnd: int) returns (bucket: int)
      requires Shape() && id in mapInfo && id != EMPTY && 0 <= rnd < p.newBuckets
      ensures bucket == -1 <==> FoundSlots(p, View(), id) == {}
    {
      ghost var s := View();
      var n := 0;
      while n < p.newBuckets
        invariant 0 <= n <= p.newBuckets && NoneBefore(p, s, id, rnd, n)
      {
        bucket := (n + rnd) % p.newBuckets;
        var held := HeldIn(id, bucket);
        if held { return; }
        NoneNext(p, s, id, rnd, n);
        n := n + 1;
      }
      FoundInSomeRound(p, s, id, rnd);
      bucket := -1;
    }

    method Lookup(svc: Service) returns (known: bool, id: int)
      ensures known <==> Knows(View(), svc)
      ensures known ==> id == mapAddr[svc.ip]
    {
      known, id := false, EMPTY;
      if svc.ip in mapAddr && mapAddr[svc.ip] in mapInfo {
        id := mapAddr[svc.ip];
        known := mapInfo[id].svc == svc;
      }
    }

    /** Notes the time of a success. */
    method Mark(svc: Service, time: int) returns (known: bool, id: int)
      modifies this`nLastGood, this`mapInfo
      ensures known <==> Knows(old(View()), svc)
      ensures known ==> id == old(mapAddr)[svc.ip]
      ensures View() == if known then Marked(old(View()), id, time) else old(View()).(lastGood := time)
    {
      nLastGood := time;
      known, id := Lookup(svc);
      if known {
        mapInfo := mapInfo[id := mapInfo[id].(lastSuccess := time, lastTry := time, attempts := 0)];
      }
    }

    /** Marks an entry good; `rnd` is the random bucket to start the search at. */
    method Good(svc: Service, time: int, rnd: int)
      requires Shape() && Core(p, View(), {}, {}) && 0 <= rnd < p.newBuckets
      modifies this, vvNew, vvTried
      ensures View() == AddrManState.Good(p, old(View()), svc, time)
    {
      ghost var s := View();
      var known, id := Mark(svc, time);
      if !known || mapInfo[id].inTried { return; }
      MarkedCore(p, s, id, time, View());
      var bucket := FindBucket(id, rnd);
      if bucket == -1 { return; }
      MakeTried(id);
    }

    method Attempt(svc: Service, countFailure: bool, time: int)
      modifies this`mapInfo
      ensures View() == AddrManState.Attempt(old(View()), svc, countFailure, time)
    {
      var known, id := Lookup(svc);
      if !known { return; }
      var info := mapInfo[id].(lastTry := time);
      if countFailure && info.lastCountAttempt < nLastGood {
        info := info.(lastCountAttempt := time, attempts := info.attempts + 1);
      }
      mapInfo := mapInfo[id := info];
    }

    method Connected(svc: Service, time: int)
      modifies this`mapInfo
      ensures View() == AddrManState.Connected(old(View()), svc, time)
    {
      var known, id := Lookup(svc);
      if !known { return; }
      if time - mapInfo[id].time > 20 * 60 {
        mapInfo := mapInfo[id := mapInfo[id].(time := time)];
      }
    }

    method SetServices(svc: Service, services: bv64)
      modifies this`mapInfo
      ensures View() == AddrManState.SetServices(old(View()), svc, services)
    {
      var known, id := Lookup(svc);
      if !known { return; }
      mapInfo := mapInfo[id := mapInfo[id].(services := services)];
    }

    /** Adds an entry for an address that is not known; it is in no bucket yet. */
    method Create(a: Address, source: NetAddr) returns (id: int)
      modifies this`nIdCount, this`mapInfo, this`mapAddr, this`vRandom
      ensures id == old(nIdCount) && View() == AddrManState.Create(old(View()), a, source)
    {
      id := nIdCount;
      nIdCount := nIdCount + 1;
      mapInfo := mapInfo[id := AddrInfo(a.svc, a.time, a.services, source, 0, 0, 0, 0, 0, false, |vRandom|)];
      mapAddr := mapAddr[a.svc.ip := id];
      vRandom := vRandom + [id];
    }

    /** Adds such an entry and counts it as new. */
    method CreateNew(a: Address, source: NetAddr) returns (id: int)
      modifies this`nIdCount, this`mapInfo, this`mapAddr, this`vRandom, this`nNew
      ensures id == old(nIdCount)
      ensures View() == AddrManState.CreateNew(old(View()), a, source)
    {
      id := Create(a, source);
      nNew := nNew + 1;
    }

    /** Takes over a new slot from its occupant, if any. */
    method TakeOver(sl: Slot, id: int, ghost zero: set<int>)
      requires Shape() && Core(p, View(), zero, {}) && id in mapInfo && 0 <= sl.bucket < p.newBuckets && 0 <= sl.pos < p.bucketSize
      requires sl in Grid(vvNew) ==> Grid(vvNew)[sl] != id
      modifies this`mapInfo, this`vRandom, this`mapAddr, this`nNew, vvNew
      ensures View() == AddrManState.TakeOver(old(View()), sl, id)
    {
      ghost var s := View();
      ClearNew(sl.bucket, sl.pos, zero, {});
      ghost var c := View();
      OthersKept(p, s, sl, id, c, zero);
      Link(sl, id, mapInfo[id].refCount + 1);
      TakenOver(s, sl, id, c, View());
    }

    /** Decides whether an entry may have a new slot. */
    method CheckTake(sl: Slot, id: int, now: int) returns (insert: bool)
      requires Shape() && NewOk(p, View()) && id in mapInfo && 0 <= sl.bucket < p.newBuckets && 0 <= sl.pos < p.bucketSize
      ensures insert == MayTake(View(), sl, id, now)
    {
      At(vvNew, sl.bucket, sl.pos);
      insert := vvNew[sl.bucket, sl.pos] == EMPTY;
      if !insert {
        var held := mapInfo[vvNew[sl.bucket, sl.pos]];
        insert := IsTerrible(held, now) || (held.refCount > 1 && mapInfo[id].refCount == 0);
      }
    }

    method Place(id: int, source: NetAddr, now: int, ghost zero: set<int>)
      requires Shape() && Core(p, View(), zero, {}) && zero <= {id} && id in mapInfo && !mapInfo[id].inTried
      modifies this`mapInfo, this`vRandom, this`mapAddr, this`nNew, vvNew
      ensures View() == AddrManState.Place(p, old(View()), id, source, now)
    {
      var sl := p.NewSlot(nKey, mapInfo[id].svc, source);
      At(vvNew, sl.bucket, sl.pos);
      if vvNew[sl.bucket, sl.pos] != id {
        var insert := CheckTake(sl, id, now);
        if insert {
          TakeOver(sl, id, zero);
        } else if mapInfo[id].refCount == 0 {
          Delete(id);
        }
      }
    }

    /** A known address is announced again: its entry is refreshed, and may be given one more reference. */
    method AddAgain(a: Address, source: NetAddr, penalty: int, now: int, draw: nat)
      requires Shape() && Inv(p, View()) && a.svc.ip in mapAddr
      modifies this`mapInfo, this`vRandom, this`mapAddr, this`nNew, vvNew
      ensures View() == AddrManState.AddAgain(p, old(View()), a, source, penalty, now, draw)
    {
      ghost var s := View();
      var id := mapAddr[a.svc.ip];
      var info := Refresh(mapInfo[id], a, penalty, now);
      mapInfo := mapInfo[id := info];
      ghost var t := View();
      assert t == Update(s, id, info);
      TouchInv(p, s, id, info, t);
      var wants := CheckReference(info, a, draw);
      if wants {
        Place(id, source, now, {});
      }
    }

    /** An unknown address is announced. */
    method AddNew(a: Address, source: NetAddr, penalty: int, now: int)
      requires Shape() && Inv(p, View()) && a.svc.ip !in mapAddr
      modifies this`nIdCount, this`mapInfo, this`vRandom, this`mapAddr, this`nNew, vvNew
      ensures View() == AddrManState.AddNew(p, old(View()), a, source, penalty, now)
    {
      ghost var s := View();
      var b := a.(time := Max(0, a.time - penalty));
      var id := CreateNew(b, source);
      ghost var u := View();
      ReadyToPlace(p, s, b, source, u);
      Place(id, source, now, {id});
      PlacedNew(p, s, a, source, penalty, now, b, u, View());
    }

    /** Adds an announced address; `draw` is the random number of the stochastic test. */
    method Add(a: Address, source: NetAddr, penalty: int, now: int, draw: nat) returns (isNew: bool)
      requires Shape() && Inv(p, View())
      modifies this`nIdCount, this`mapInfo, this`vRandom, this`mapAddr, this`nNew, vvNew
      ensures (View(), isNew) == AddrManState.Add(p, old(View()), a, source, penalty, now, draw)
    {
      isNew := false;
      if p.routable(a.svc.ip) {
        if a.svc.ip in mapAddr {
          AddAgain(a, source, penalty, now, draw);
        } else {
          AddNew(a, source, penalty, now);
          isNew := true;
        }
      }
    }

    /** Returns a random selection of entries; `draws(n)` is the n-th random number. */
    method GetAddr(now: int, draws: nat -> nat) returns (got: seq<AddrInfo>)
      requires Shape() && RandomOk(View())
      modifies this`mapInfo, this`vRandom
      ensures Reordered(old(View()), View()) && Selected(View(), got, GetAddrLimit(View()), now)
    {
      ghost var s := View();
      var limit := if GETADDR_MAX_PCT * |vRandom| / 100 > GETADDR_MAX then GETADDR_MAX else GETADDR_MAX_PCT * |vRandom| / 100;
      got := [];
      var n := 0;
      while n < |vRandom| && |got| < limit
        invariant n <= |vRandom| && RandomOk(View()) && Reordered(s, View()) && Picked(View(), n, got, now)
        invariant |got| <= Max(0, limit)
      {
        ghost var t := View();
        var m := draws(n) % (|vRandom| - n) + n;
        SwapRandom(n, m);
        SwapRandomOk(t, n, m, View());
        ReorderedTwice(s, t, View());
        assert vRandom[n] in mapInfo;
        var info := mapInfo[vRandom[n]];
        ghost var was := got;
        if !IsTerrible(info, now) { got := got + [info]; }
        GetAddrStep(t, n, m, was, now, View(), got);
        n := n + 1;
      }
      assert Picked(View(), n, got, now);
    }

    /** Each operation is the step of the same name. */
    method Dispatch(op: Op, rnd: int, now: int, draws: nat -> nat)
      requires Shape() && Inv(p, View()) && 0 <= rnd < p.newBuckets
      modifies this, vvNew, vvTried
      ensures Step(p, old(View()), op, View())
    {
      match op
      case OpAdd(a, source, penalty, t, draw) => var _ := Add(a, source, penalty, t, draw);
      case OpGood(svc, time) => Good(svc, time, rnd);
      case OpAttempt(svc, countFailure, time) => Attempt(svc, countFailure, time);
      case OpConnected(svc, time) => Connected(svc, time);
      case OpSetServices(svc, services) => SetServices(svc, services);
      case OpGetAddr => var _ := GetAddr(now, draws);
    }

    /** Any operation with times in range leaves the tables consistent; with the constructor, this
        makes the check succeed after every sequence of calls. */
    method Perform(op: Op, rnd: int, now: int, draws: nat -> nat)
      requires Shape() && Inv(p, View()) && TimesGiven(op) && 0 <= rnd < p.newBuckets
      modifies this, vvNew, vvTried
      ensures Step(p, old(View()), op, View()) && Inv(p, View())
    {
      ghost var s := View();
      Dispatch(op, rnd, now, draws);
      StepInv(p, s, op, View());
    }
  }

  lemma At(a: array2<int>, bucket: int, pos: int)
    requires 0 <= bucket < a.Length0 && 0 <= pos < a.Length1
    ensures Slot(bucket, pos) in Grid(a) <==> a[bucket, pos] != EMPTY
    ensures Slot(bucket, pos) in Grid(a) ==> Grid(a)[Slot(bucket, pos)] == a[bucket, pos]
  {
  }

  /** Writes one slot of a grid. */
  method Put(a: array2<int>, bucket: int, pos: int, id: int)
    requires 0 <= bucket < a.Length0 && 0 <= pos < a.Length1
    modifies a
    ensures Grid(a) == if id == EMPTY then old(Grid(a)) - {Slot(bucket, pos)} else old(Grid(a))[Slot(bucket, pos) := id]
  {
    a[bucket, pos] := id;
  }

  /** The slots of an entry that the first `n` rounds of the loop find. */
  ghost function FoundBefore(p: Params, s: State, id: int, n: int): set<Slot>
    requires p.Valid() && id in s.info
  {
    set sl | sl in FoundSlots(p, s, id) && sl.bucket < n
  }

  lemma FoundNext(p: Params, s: State, id: int, bucket: int, sl: Slot)
    requires p.Valid() && id in s.info && 0 <= bucket < p.newBuckets && sl == Slot(bucket, p.Pos(s.key, s.info[id].svc, true, bucket))
    ensures sl !in FoundBefore(p, s, id, bucket)
    ensures FoundBefore(p, s, id, bucket + 1) ==
      FoundBefore(p, s, id, bucket) + if sl in s.newSlots && s.newSlots[sl] == id then {sl} else {}
  {
    var found := sl in s.newSlots && s.newSlots[sl] == id;
    forall x ensures x in FoundBefore(p, s, id, bucket + 1) <==> x in FoundBefore(p, s, id, bucket) || (found && x == sl) {
      if x in FoundSlots(p, s, id) && x.bucket == bucket { assert x == sl; }
    }
  }

  /** The entries and the new slots when the first `n` rounds are over. */
  ghost predicate UnlinkedTo(p: Params, s: State, id: int, n: int, info: map<int, AddrInfo>, slots: map<Slot, int>)
    requires p.Valid() && id in s.info
  {
    var found := FoundBefore(p, s, id, n);
    slots == s.newSlots - found && info == WithRefs(s.info, id, s.info[id].refCount - |found|)
  }

  lemma UnlinkStep(p: Params, s: State, id: int, bucket: int, sl: Slot, info: map<int, AddrInfo>, slots: map<Slot, int>,
                   found: bool)
    requires p.Valid() && id in s.info && 0 <= bucket < p.newBuckets && sl == Slot(bucket, p.Pos(s.key, s.info[id].svc, true, bucket))
    requires UnlinkedTo(p, s, id, bucket, info, slots) && (found <==> sl in slots && slots[sl] == id)
    ensures !found ==> UnlinkedTo(p, s, id, bucket + 1, info, slots)
    ensures found ==> UnlinkedTo(p, s, id, bucket + 1, WithRefs(info, id, info[id].refCount - 1), slots - {sl})
  {
    FoundNext(p, s, id, bucket, sl);
    if found { UnlinkOne(s, id, FoundBefore(p, s, id, bucket), sl, info, slots); }
  }

  lemma NoneUnlinked(p: Params, s: State, id: int)
    requires p.Valid() && id in s.info
    ensures UnlinkedTo(p, s, id, 0, s.info, s.newSlots)
  {
    assert FoundBefore(p, s, id, 0) == {};
  }

  lemma UnlinkOne(s: State, id: int, done: set<Slot>, sl: Slot, info: map<int, AddrInfo>, slots: map<Slot, int>)
    requires id in s.info && sl !in done
    requires slots == s.newSlots - done && info == WithRefs(s.info, id, s.info[id].refCount - |done|)
    ensures slots - {sl} == s.newSlots - (done + {sl})
    ensures WithRefs(info, id, info[id].refCount - 1) == WithRefs(s.info, id, s.info[id].refCount - |done + {sl}|)
  {
    assert |done + {sl}| == |done| + 1;
  }

  lemma AllUnlinked(p: Params, s: State, id: int, t: State)
    requires p.Valid() && id in s.info && UnlinkedTo(p, s, id, p.newBuckets, t.info, t.newSlots)
    requires t == s.(info := t.info, newSlots := t.newSlots, nNew := s.nNew - 1)
    ensures t == AddrManState.Unlink(p, s, id)
  {
    assert FoundBefore(p, s, id, p.newBuckets) == FoundSlots(p, s, id);
  }

  /** After a slot is cleared it is empty, and an entry that was in no bucket is still there. */
  lemma CleanSlot(p: Params, s: State, sl: Slot, id: int, t: State, zero: set<int>)
    requires p.Valid() && Core(p, s, zero, zero) && id in zero && t == ClearNew(s, sl)
    ensures id in t.info && sl !in t.newSlots
  {
    ClearNewCore(p, s, sl, t, zero, zero);
    assert id !in s.newSlots.Values by { assert Refs(s, id) == {}; assert forall y :: y in s.newSlots ==> y !in Refs(s, id); }
  }

  /** After an eviction the tried slot is empty, and the entry that is to go there is still known. */
  lemma Vacated(p: Params, s: State, sl: Slot, id: int, t: State)
    requires p.Valid() && Core(p, s, {id}, {id}) && t == Vacate(p, s, sl)
    ensures id in t.info && sl !in t.triedSlots
  {
    if sl in s.triedSlots { EvictCore(p, s, sl, id, t); }
  }

  /** The m-th bucket looked at, from `rnd` on, does not hold the entry. */
  ghost predicate NotAt(p: Params, s: State, id: int, rnd: int, m: int)
    requires p.Valid() && id in s.info
  {
    var b := (m + rnd) % p.newBuckets;
    Slot(b, p.Pos(s.key, s.info[id].svc, true, b)) !in FoundSlots(p, s, id)
  }

  ghost predicate NoneBefore(p: Params, s: State, id: int, rnd: int, n: int)
    requires p.Valid() && id in s.info
  {
    forall m :: 0 <= m < n ==> NotAt(p, s, id, rnd, m)
  }

  lemma NoneNext(p: Params, s: State, id: int, rnd: int, n: int)
    requires p.Valid() && id in s.info && NoneBefore(p, s, id, rnd, n) && NotAt(p, s, id, rnd, n)
    ensures NoneBefore(p, s, id, rnd, n + 1)
  {
  }

  /** An entry that is in a bucket is met in one round of the search. */
  lemma FoundInSomeRound(p: Params, s: State, id: int, rnd: int)
    requires p.Valid() && id in s.info && 0 <= rnd < p.newBuckets
    ensures NoneBefore(p, s, id, rnd, p.newBuckets) ==> FoundSlots(p, s, id) == {}
  {
    if FoundSlots(p, s, id) != {} {
      var sl :| sl in FoundSlots(p, s, id);
      var m := if sl.bucket >= rnd then sl.bucket - rnd else sl.bucket - rnd + p.newBuckets;
      ModOnce(m + rnd, p.newBuckets);
      assert !NotAt(p, s, id, rnd, m);
    }
  }

  lemma ModOnce(x: int, c: int)
    requires 0 <= x < 2 * c
    ensures x % c == if x < c then x else x - c
  {
    if x >= c {
      assert x == 1 * c + (x - c);
    }
  }

  /** A new entry that has been counted can be placed. */
  lemma ReadyToPlace(p: Params, s: State, a: Address, source: NetAddr, u: State)
    requires p.Valid() && Inv(p, s) && a.svc.ip !in s.addr && u == AddrManState.CreateNew(s, a, source)
    ensures Core(p, u, {s.idCount}, {}) && s.idCount in u.info && !u.info[s.idCount].inTried
  {
    Created(p, s, a, source, Slot(0, 0), 0, u);
  }

  /** Clearing a slot leaves the entries that do not hold it. */
  lemma OthersKept(p: Params, s: State, sl: Slot, id: int, t: State, zero: set<int>)
    requires p.Valid() && Core(p, s, zero, {}) && id in s.info && (sl in s.newSlots ==> s.newSlots[sl] != id) && t == ClearNew(s, sl)
    ensures id in t.info && t.info[id].refCount == s.info[id].refCount && id != EMPTY
  {
    ClearNewCore(p, s, sl, t, zero, {});
  }

  lemma TakenOver(s: State, sl: Slot, id: int, c: State, t: State)
    requires RandomOk(s) && (sl in s.newSlots ==> s.newSlots[sl] in s.info && s.newSlots[sl] != id) && id in s.info
    requires c == ClearNew(s, sl) && id in c.info && t == AddrManState.Link(c, sl, id, s.info[id].refCount + 1)
    ensures t == AddrManState.TakeOver(s, sl, id)
  {
    assert AddrManState.TakeOver(s, sl, id) == AddrManState.Link(ClearNew(s, sl), sl, id, s.info[id].refCount + 1);
  }

  lemma ReorderedTwice(s: State, t: State, u: State)
    requires Reordered(s, t) && SameButPos(u, t) && u.info.Keys == t.info.Keys && |u.rnd| == |t.rnd| && u == t.(rnd := u.rnd, info := u.info)
    ensures Reordered(s, u)
  {
  }

  /** The tests that decide whether a known entry is given one more reference. */
  method CheckReference(info: AddrInfo, a: Address, draw: nat) returns (wants: bool)
    ensures wants == WantsReference(info, a, draw)
  {
    if a.time == 0 || (info.time != 0 && a.time <= info.time) { return false; }
    if info.inTried { return false; }
    if info.refCount == NEW_BUCKETS_PER_ADDRESS { return false; }
    var factor, n := 1, 0;
    while n < info.refCount
      invariant 0 <= n && (n <= info.refCount || n == 0) && factor == Power2(n) > 0
    {
      factor := factor * 2;
      n := n + 1;
    }
    return !(factor > 1 && draw % factor != 0);
  }

  lemma ReleaseReady(p: Params, s: State, sl: Slot, id: int, zero: set<int>, uncounted: set<int>)
    requires p.Valid() && Core(p, s, zero, uncounted) && sl in s.newSlots && s.newSlots[sl] == id
    ensures id in s.info && s.info[id].refCount > 0 && id !in uncounted
    ensures s.info[id].refCount == 1 ==> Core(p, Release(s, sl, id), zero + {id}, uncounted)
  {
    ReleaseCore(p, s, sl, id, Release(s, sl, id), zero, uncounted);
  }
}
